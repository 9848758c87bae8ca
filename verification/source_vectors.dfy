/**
 * The frames the firmware's serial shell writes by hand, recomputed by the
 * model: each hand-written frame is the frame `makePacket` builds for its
 * command and payload, checksum included.
 */
module SourceVectors {
  import opened Bytes
  import opened Checksum8Bit
  import opened PrinterPacket

  /** A hand-written frame with a short payload is `makePacket`'s frame once its checksum is the payload's. */
  lemma FrameIs(command: byte, data: seq<byte>, length: byte, checksum: byte, frame: seq<byte>)
    requires |data| == length as int && Calculate(data) == checksum
    requires frame == [0x51, 0x78, command, 0x00, length, 0x00] + data + [checksum, 0xFF]
    ensures MakePacket(command, data) == frame
  {
    MakePacketShort(command, data, length, checksum);
  }

  /** `makePacketUInt8(0xA4, 0x05)` is the hand-written set-heat frame it is asserted equal to. */
  lemma SetHeatFrame()
    ensures MakePacketUInt8(0xA4, 0x05) == [0x51, 0x78, 0xA4, 0x00, 0x01, 0x00, 0x05, 0x1B, 0xFF]
  {
    MakePacketUInt8Layout(0xA4, 0x05);
    Crc8OfByteUnrolled(0x05);
  }

  /** `setPaperSpeed`: paper speed 0x2D. */
  lemma PaperSpeedFrame()
    ensures MakePacket(0xBD, [0x2D]) == [0x51, 0x78, 0xBD, 0x00, 0x01, 0x00, 0x2D, 0xC3, 0xFF]
  {
    MakePacketUInt8Layout(0xBD, 0x2D);
    Crc8OfByteUnrolled(0x2D);
  }

  /** `setDraft`: draft mode on. */
  lemma DraftFrame()
    ensures MakePacket(0xBE, [0x01]) == [0x51, 0x78, 0xBE, 0x00, 0x01, 0x00, 0x01, 0x07, 0xFF]
  {
    MakePacketUInt8Layout(0xBE, 0x01);
    Crc8OfByteUnrolled(0x01);
  }

  /** Draft mode off. */
  lemma DraftOffFrame()
    ensures MakePacket(0xBE, [0x00]) == [0x51, 0x78, 0xBE, 0x00, 0x01, 0x00, 0x00, 0x00, 0xFF]
  {
    MakePacketUInt8Layout(0xBE, 0x00);
    Crc8OfByteUnrolled(0x00);
  }

  /** Paper feed speed 0x50. */
  lemma FeedSpeedFrame()
    ensures MakePacket(0xBD, [0x50]) == [0x51, 0x78, 0xBD, 0x00, 0x01, 0x00, 0x50, 0xB7, 0xFF]
  {
    MakePacketUInt8Layout(0xBD, 0x50);
    Crc8OfByteUnrolled(0x50);
  }

  /** Paper feed speed 0x19. */
  lemma SlowFeedSpeedFrame()
    ensures MakePacket(0xBD, [0x19]) == [0x51, 0x78, 0xBD, 0x00, 0x01, 0x00, 0x19, 0x4F, 0xFF]
  {
    MakePacketUInt8Layout(0xBD, 0x19);
    Crc8OfByteUnrolled(0x19);
  }

  /** A status request whose sub-type byte is zero. */
  lemma StatusZeroFrame()
    ensures MakePacket(0xA3, [0x00]) == [0x51, 0x78, 0xA3, 0x00, 0x01, 0x00, 0x00, 0x00, 0xFF]
  {
    MakePacketUInt8Layout(0xA3, 0x00);
    Crc8OfByteUnrolled(0x00);
  }

  /** The payload of `setEnergy`: energy 0x3E80, low byte first. */
  const SetEnergyPayload: seq<byte> := [0x80, 0x3E]

  /** The register steps of the checksum of `SetEnergyPayload`. */
  lemma SetEnergySteps()
    ensures Crc8OfByte(0x80) == 0x89
    ensures Crc8OfByte(0xB7) == 0x0C
  {
    Crc8OfByteUnrolled(0x80);
    Crc8OfByteUnrolled(0xB7);
  }

  /** The checksum of `SetEnergyPayload`, one register step per byte. */
  lemma SetEnergyChecksum()
    ensures Calculate(SetEnergyPayload) == 0x0C
  {
    SetEnergySteps();
    assert RunsTo(SetEnergyPayload, 2, 0x0C, 0x0C);
    assert RunsTo(SetEnergyPayload, 1, 0x89, 0x0C);
    assert RunsTo(SetEnergyPayload, 0, 0x00, 0x0C);
    CalculateRunsTo(SetEnergyPayload, 0, 0, 0x0C);
    assert SetEnergyPayload[0..] == SetEnergyPayload;
  }

  /** The hand-written bytes of the frame are the header, `SetEnergyPayload` and the footer. */
  lemma SetEnergyLayout()
    ensures [0x51, 0x78, 0xAF, 0x00, 0x02, 0x00] + SetEnergyPayload + [0x0C, 0xFF]
         == [0x51, 0x78, 0xAF, 0x00, 0x02, 0x00, 0x80, 0x3E, 0x0C, 0xFF]
  {
  }

  /** The set-energy frame. */
  lemma SetEnergyFrame()
    ensures MakePacket(0xAF, SetEnergyPayload)
         == [0x51, 0x78, 0xAF, 0x00, 0x02, 0x00, 0x80, 0x3E, 0x0C, 0xFF]
  {
    SetEnergyChecksum();
    SetEnergyLayout();
    FrameIs(0xAF, SetEnergyPayload, 0x02, 0x0C, [0x51, 0x78, 0xAF, 0x00, 0x02, 0x00, 0x80, 0x3E, 0x0C, 0xFF]);
  }

  /** The payload of the energy frame: energy 0x2EE0, low byte first. */
  const EnergyPayload: seq<byte> := [0xE0, 0x2E]

  /** The register steps of the checksum of `EnergyPayload`. */
  lemma EnergySteps()
    ensures Crc8OfByte(0x80) == 0x89
    ensures Crc8OfByte(0xE0) == 0xAE
  {
    Crc8OfByteUnrolled(0x80);
    Crc8OfByteUnrolled(0xE0);
  }

  /** The checksum of `EnergyPayload`, one register step per byte. */
  lemma EnergyChecksum()
    ensures Calculate(EnergyPayload) == 0x89
  {
    EnergySteps();
    assert RunsTo(EnergyPayload, 2, 0x89, 0x89);
    assert RunsTo(EnergyPayload, 1, 0xAE, 0x89);
    assert RunsTo(EnergyPayload, 0, 0x00, 0x89);
    CalculateRunsTo(EnergyPayload, 0, 0, 0x89);
    assert EnergyPayload[0..] == EnergyPayload;
  }

  /** The hand-written bytes of the frame are the header, `EnergyPayload` and the footer. */
  lemma EnergyLayout()
    ensures [0x51, 0x78, 0xAF, 0x00, 0x02, 0x00] + EnergyPayload + [0x89, 0xFF]
         == [0x51, 0x78, 0xAF, 0x00, 0x02, 0x00, 0xE0, 0x2E, 0x89, 0xFF]
  {
  }

  /** The energy frame. */
  lemma EnergyFrame()
    ensures MakePacket(0xAF, EnergyPayload)
         == [0x51, 0x78, 0xAF, 0x00, 0x02, 0x00, 0xE0, 0x2E, 0x89, 0xFF]
  {
    EnergyChecksum();
    EnergyLayout();
    FrameIs(0xAF, EnergyPayload, 0x02, 0x89, [0x51, 0x78, 0xAF, 0x00, 0x02, 0x00, 0xE0, 0x2E, 0x89, 0xFF]);
  }

  /** The payload 0x30 0x00 of command 0xA1. */
  const ScrollPayload: seq<byte> := [0x30, 0x00]

  /** The register steps of the checksum of `ScrollPayload`. */
  lemma ScrollSteps()
    ensures Crc8OfByte(0x30) == 0x90
    ensures Crc8OfByte(0x90) == 0xF9
  {
    Crc8OfByteUnrolled(0x30);
    Crc8OfByteUnrolled(0x90);
  }

  /** The checksum of `ScrollPayload`, one register step per byte. */
  lemma ScrollChecksum()
    ensures Calculate(ScrollPayload) == 0xF9
  {
    ScrollSteps();
    assert RunsTo(ScrollPayload, 2, 0xF9, 0xF9);
    assert RunsTo(ScrollPayload, 1, 0x90, 0xF9);
    assert RunsTo(ScrollPayload, 0, 0x00, 0xF9);
    CalculateRunsTo(ScrollPayload, 0, 0, 0xF9);
    assert ScrollPayload[0..] == ScrollPayload;
  }

  /** The hand-written bytes of the frame are the header, `ScrollPayload` and the footer. */
  lemma ScrollLayout()
    ensures [0x51, 0x78, 0xA1, 0x00, 0x02, 0x00] + ScrollPayload + [0xF9, 0xFF]
         == [0x51, 0x78, 0xA1, 0x00, 0x02, 0x00, 0x30, 0x00, 0xF9, 0xFF]
  {
  }

  /** The frame for command 0xA1, written both by hand and by `makePacket`. */
  lemma ScrollFrame()
    ensures MakePacket(0xA1, ScrollPayload)
         == [0x51, 0x78, 0xA1, 0x00, 0x02, 0x00, 0x30, 0x00, 0xF9, 0xFF]
  {
    ScrollChecksum();
    ScrollLayout();
    FrameIs(0xA1, ScrollPayload, 0x02, 0xF9, [0x51, 0x78, 0xA1, 0x00, 0x02, 0x00, 0x30, 0x00, 0xF9, 0xFF]);
  }

  /** The payload of the lattice frame sent before printing. */
  const LatticeStartPayload: seq<byte> := [0xAA, 0x55, 0x17, 0x38, 0x44, 0x5F, 0x5F, 0x5F, 0x44, 0x38, 0x2C]

  /** The register steps of the checksum of `LatticeStartPayload`. */
  lemma LatticeStartSteps()
    ensures Crc8OfByte(0x0A) == 0x36
    ensures Crc8OfByte(0x21) == 0xE7
    ensures Crc8OfByte(0x38) == 0xA8
    ensures Crc8OfByte(0x3B) == 0xA1
    ensures Crc8OfByte(0x57) == 0xA2
    ensures Crc8OfByte(0xA2) == 0x67
    ensures Crc8OfByte(0xAA) == 0x5F
    ensures Crc8OfByte(0xB2) == 0x17
    ensures Crc8OfByte(0xDF) == 0x13
    ensures Crc8OfByte(0xEC) == 0x8A
    ensures Crc8OfByte(0xFD) == 0xFD
  {
    Crc8OfByteUnrolled(0x0A);
    Crc8OfByteUnrolled(0x21);
    Crc8OfByteUnrolled(0x38);
    Crc8OfByteUnrolled(0x3B);
    Crc8OfByteUnrolled(0x57);
    Crc8OfByteUnrolled(0xA2);
    Crc8OfByteUnrolled(0xAA);
    Crc8OfByteUnrolled(0xB2);
    Crc8OfByteUnrolled(0xDF);
    Crc8OfByteUnrolled(0xEC);
    Crc8OfByteUnrolled(0xFD);
  }

  /** The checksum of `LatticeStartPayload`, one register step per byte. */
  lemma LatticeStartChecksum()
    ensures Calculate(LatticeStartPayload) == 0xA1
  {
    LatticeStartSteps();
    assert RunsTo(LatticeStartPayload, 11, 0xA1, 0xA1);
    assert RunsTo(LatticeStartPayload, 10, 0x17, 0xA1);
    assert RunsTo(LatticeStartPayload, 9, 0x8A, 0xA1);
    assert RunsTo(LatticeStartPayload, 8, 0xA8, 0xA1);
    assert RunsTo(LatticeStartPayload, 7, 0x67, 0xA1);
    assert RunsTo(LatticeStartPayload, 6, 0xFD, 0xA1);
    assert RunsTo(LatticeStartPayload, 5, 0xA2, 0xA1);
    assert RunsTo(LatticeStartPayload, 4, 0x13, 0xA1);
    assert RunsTo(LatticeStartPayload, 3, 0xE7, 0xA1);
    assert RunsTo(LatticeStartPayload, 2, 0x36, 0xA1);
    assert RunsTo(LatticeStartPayload, 1, 0x5F, 0xA1);
    assert RunsTo(LatticeStartPayload, 0, 0x00, 0xA1);
    CalculateRunsTo(LatticeStartPayload, 0, 0, 0xA1);
    assert LatticeStartPayload[0..] == LatticeStartPayload;
  }

  /** The hand-written bytes of the frame are the header, `LatticeStartPayload` and the footer. */
  lemma LatticeStartLayout()
    ensures [0x51, 0x78, 0xA6, 0x00, 0x0B, 0x00] + LatticeStartPayload + [0xA1, 0xFF]
         == [0x51, 0x78, 0xA6, 0x00, 0x0B, 0x00, 0xAA, 0x55, 0x17, 0x38, 0x44, 0x5F, 0x5F, 0x5F, 0x44, 0x38, 0x2C, 0xA1, 0xFF]
  {
  }

  /** The eleven-byte lattice frame sent before printing. */
  lemma LatticeStartFrame()
    ensures MakePacket(0xA6, LatticeStartPayload)
         == [0x51, 0x78, 0xA6, 0x00, 0x0B, 0x00, 0xAA, 0x55, 0x17, 0x38, 0x44, 0x5F, 0x5F, 0x5F, 0x44, 0x38, 0x2C, 0xA1, 0xFF]
  {
    LatticeStartChecksum();
    LatticeStartLayout();
    FrameIs(0xA6, LatticeStartPayload, 0x0B, 0xA1, [0x51, 0x78, 0xA6, 0x00, 0x0B, 0x00, 0xAA, 0x55, 0x17, 0x38, 0x44, 0x5F, 0x5F, 0x5F, 0x44, 0x38, 0x2C, 0xA1, 0xFF]);
  }

  /** The payload of the lattice frame sent after printing. */
  const LatticeEndPayload: seq<byte> := [0xAA, 0x55, 0x17, 0x00, 0x00, 0x00, 0x00, 0x00, 0x00, 0x00, 0x17]

  /** The register steps of the checksum of `LatticeEndPayload`. */
  lemma LatticeEndSteps()
    ensures Crc8OfByte(0x06) == 0x12
    ensures Crc8OfByte(0x0A) == 0x36
    ensures Crc8OfByte(0x12) == 0x7E
    ensures Crc8OfByte(0x21) == 0xE7
    ensures Crc8OfByte(0x28) == 0xD8
    ensures Crc8OfByte(0x6A) == 0x11
    ensures Crc8OfByte(0x7E) == 0x7D
    ensures Crc8OfByte(0xAA) == 0x5F
    ensures Crc8OfByte(0xBB) == 0x28
    ensures Crc8OfByte(0xD8) == 0x06
    ensures Crc8OfByte(0xE7) == 0xBB
  {
    Crc8OfByteUnrolled(0x06);
    Crc8OfByteUnrolled(0x0A);
    Crc8OfByteUnrolled(0x12);
    Crc8OfByteUnrolled(0x21);
    Crc8OfByteUnrolled(0x28);
    Crc8OfByteUnrolled(0x6A);
    Crc8OfByteUnrolled(0x7E);
    Crc8OfByteUnrolled(0xAA);
    Crc8OfByteUnrolled(0xBB);
    Crc8OfByteUnrolled(0xD8);
    Crc8OfByteUnrolled(0xE7);
  }

  /** The checksum of `LatticeEndPayload`, one register step per byte. */
  lemma LatticeEndChecksum()
    ensures Calculate(LatticeEndPayload) == 0x11
  {
    LatticeEndSteps();
    assert RunsTo(LatticeEndPayload, 11, 0x11, 0x11);
    assert RunsTo(LatticeEndPayload, 10, 0x7D, 0x11);
    assert RunsTo(LatticeEndPayload, 9, 0x7E, 0x11);
    assert RunsTo(LatticeEndPayload, 8, 0x12, 0x11);
    assert RunsTo(LatticeEndPayload, 7, 0x06, 0x11);
    assert RunsTo(LatticeEndPayload, 6, 0xD8, 0x11);
    assert RunsTo(LatticeEndPayload, 5, 0x28, 0x11);
    assert RunsTo(LatticeEndPayload, 4, 0xBB, 0x11);
    assert RunsTo(LatticeEndPayload, 3, 0xE7, 0x11);
    assert RunsTo(LatticeEndPayload, 2, 0x36, 0x11);
    assert RunsTo(LatticeEndPayload, 1, 0x5F, 0x11);
    assert RunsTo(LatticeEndPayload, 0, 0x00, 0x11);
    CalculateRunsTo(LatticeEndPayload, 0, 0, 0x11);
    assert LatticeEndPayload[0..] == LatticeEndPayload;
  }

  /** The hand-written bytes of the frame are the header, `LatticeEndPayload` and the footer. */
  lemma LatticeEndLayout()
    ensures [0x51, 0x78, 0xA6, 0x00, 0x0B, 0x00] + LatticeEndPayload + [0x11, 0xFF]
         == [0x51, 0x78, 0xA6, 0x00, 0x0B, 0x00, 0xAA, 0x55, 0x17, 0x00, 0x00, 0x00, 0x00, 0x00, 0x00, 0x00, 0x17, 0x11, 0xFF]
  {
  }

  /** The eleven-byte lattice frame sent after printing. */
  lemma LatticeEndFrame()
    ensures MakePacket(0xA6, LatticeEndPayload)
         == [0x51, 0x78, 0xA6, 0x00, 0x0B, 0x00, 0xAA, 0x55, 0x17, 0x00, 0x00, 0x00, 0x00, 0x00, 0x00, 0x00, 0x17, 0x11, 0xFF]
  {
    LatticeEndChecksum();
    LatticeEndLayout();
    FrameIs(0xA6, LatticeEndPayload, 0x0B, 0x11, [0x51, 0x78, 0xA6, 0x00, 0x0B, 0x00, 0xAA, 0x55, 0x17, 0x00, 0x00, 0x00, 0x00, 0x00, 0x00, 0x00, 0x17, 0x11, 0xFF]);
  }
}
