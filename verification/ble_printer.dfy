/**
 * The protocol side of `BLEPrinter`: the status it keeps, how a notification
 * updates it, and the frames `requestStatus` and `setHeat` send. The BLE
 * client, services and characteristics are not modelled; a notification is
 * its payload bytes and a write is the bytes written.
 */
module BlePrinter {
  import opened Bytes
  import opened PrinterStatus
  import PrinterCommand
  import PrinterPacket
  import Checksum8Bit

  /** The command bytes `BLEPrinter` declares for itself. */
  const CommandOnOff: byte := 0x52
  const CommandStatus: byte := 0xA3
  const CommandSetHeat: byte := 0xA4
  const CommandSetEnergy: byte := 0xAF

  /** Offset of the command byte in a notification. */
  const CommandOffset: nat := 2

  /** Offset of the status byte in a status response. */
  const StatusOffset: nat := 6

  /** The sub-type byte `requestStatus` sends. */
  const StatusType: byte := 0x01

  /** The protocol state of a `BLEPrinter`: the last status it decoded. */
  datatype Printer = Printer(status: Status)

  /** A freshly constructed printer, before any status response. */
  const Initial: Printer := Printer(Unknown)

  /** `getStatus`. */
  function GetStatus(p: Printer): Status {
    p.status
  }

  /**
   * The bytes `notifyCallback` reads: the command byte always, and the
   * status byte when the command is a status response. The callback does
   * not check the length itself.
   */
  predicate Readable(data: seq<byte>) {
    |data| > CommandOffset && (data[CommandOffset] == CommandStatus ==> |data| > StatusOffset)
  }

  /** Whether a notification is a status response. */
  predicate IsStatusResponse(data: seq<byte>)
    requires Readable(data)
  {
    data[CommandOffset] == CommandStatus
  }

  /**
   * `notifyCallback`: a status response replaces the status by the decoding
   * of its status byte; any other notification leaves the printer as it is.
   */
  function OnNotify(p: Printer, data: seq<byte>): Printer
    requires Readable(data)
  {
    if IsStatusResponse(data) then Printer(Decode(data[StatusOffset])) else p
  }

  /** Every notification of a sequence is readable. */
  predicate AllReadable(notes: seq<seq<byte>>) {
    forall i :: 0 <= i < |notes| ==> Readable(notes[i])
  }

  /** The printer after the notifications arrive in order. */
  function Replay(p: Printer, notes: seq<seq<byte>>): Printer
    requires AllReadable(notes)
    decreases |notes|
  {
    if |notes| == 0 then p else Replay(OnNotify(p, notes[0]), notes[1..])
  }

  /** Reference definition: the status byte of the last status response, searching from the end. */
  function LastStatusByte(notes: seq<seq<byte>>): (r: Option<byte>)
    requires AllReadable(notes)
    decreases |notes|
  {
    if |notes| == 0 then None
    else
      var last := notes[|notes| - 1];
      if IsStatusResponse(last) then Some(last[StatusOffset]) else LastStatusByte(notes[..|notes| - 1])
  }

  /** Processing one more notification after a replay. */
  lemma {:induction false} ReplaySnoc(p: Printer, notes: seq<seq<byte>>, note: seq<byte>)
    requires AllReadable(notes) && Readable(note)
    ensures AllReadable(notes + [note])
    ensures Replay(p, notes + [note]) == OnNotify(Replay(p, notes), note)
    decreases |notes|
  {
    if |notes| > 0 {
      assert (notes + [note])[1..] == notes[1..] + [note];
      ReplaySnoc(OnNotify(p, notes[0]), notes[1..], note);
    }
  }

  /**
   * The status after any sequence of notifications is the decoding of the
   * last status response's status byte, or the status before them when no
   * status response arrived.
   */
  lemma {:induction false} ReplayIsLastStatus(p: Printer, notes: seq<seq<byte>>)
    requires AllReadable(notes)
    ensures Replay(p, notes).status == match LastStatusByte(notes) {
      case None => p.status
      case Some(b) => Decode(b)
    }
    decreases |notes|
  {
    if |notes| > 0 {
      var front, last := notes[..|notes| - 1], notes[|notes| - 1];
      assert notes == front + [last];
      ReplayIsLastStatus(p, front);
      ReplaySnoc(p, front, last);
    }
  }

  /** Until the first status response, `getStatus` reports Unknown. */
  lemma UnknownUntilStatusResponse(notes: seq<seq<byte>>)
    requires AllReadable(notes)
    requires forall i :: 0 <= i < |notes| ==> !IsStatusResponse(notes[i])
    ensures GetStatus(Replay(Initial, notes)) == Unknown
  {
    ReplayIsLastStatus(Initial, notes);
    NoStatusResponse(notes);
  }

  lemma {:induction false} NoStatusResponse(notes: seq<seq<byte>>)
    requires AllReadable(notes)
    requires forall i :: 0 <= i < |notes| ==> !IsStatusResponse(notes[i])
    ensures LastStatusByte(notes).None?
    decreases |notes|
  {
    if |notes| > 0 {
      NoStatusResponse(notes[..|notes| - 1]);
    }
  }

  /** Delivering the same notification twice leaves the printer as delivering it once. */
  lemma OnNotifyIdempotent(p: Printer, data: seq<byte>)
    requires Readable(data)
    ensures OnNotify(OnNotify(p, data), data) == OnNotify(p, data)
  {
  }

  /** The printer's own command constants agree with the command catalogue; 0x52 is not in it. */
  lemma CommandConstants()
    ensures CommandStatus == PrinterCommand.Opcode(PrinterCommand.Status)
    ensures CommandSetHeat == PrinterCommand.Opcode(PrinterCommand.SetHeat)
    ensures CommandSetEnergy == PrinterCommand.Opcode(PrinterCommand.SetEnergy)
    ensures PrinterCommand.CommandOf(CommandOnOff).None?
  {
  }

  /**
   * `requestStatus`: the status request written into its nine-byte buffer,
   * which is exactly the frame length for a one-byte payload.
   */
  method RequestStatus() returns (written: seq<byte>)
    ensures written == [0x51, 0x78, 0xA3, 0x00, 0x01, 0x00, 0x01, 0x07, 0xFF]
  {
    var buffer := seq(9, _ => 0);
    written := PrinterPacket.WritePacket(CommandStatus, [StatusType], buffer);
    RequestStatusFrame();
  }

  /** The status request frame, byte by byte. */
  lemma RequestStatusFrame()
    ensures PrinterPacket.MakePacketUInt8(CommandStatus, StatusType)
         == [0x51, 0x78, 0xA3, 0x00, 0x01, 0x00, 0x01, 0x07, 0xFF]
  {
    PrinterPacket.MakePacketUInt8Layout(CommandStatus, StatusType);
    Checksum8Bit.TablePowersOfTwo();
    Checksum8Bit.TableEntry(1);
  }

  /**
   * `setHeat`: the heat frame written into a buffer of `getPacketLength(1)`
   * bytes, carrying `heat` and its checksum.
   */
  method SetHeat(heat: byte) returns (written: seq<byte>)
    ensures written == [0x51, 0x78, 0xA4, 0x00, 0x01, 0x00, heat, Checksum8Bit.Crc8OfByte(heat), 0xFF]
  {
    var buffer := seq(PrinterPacket.PacketLength(1), _ => 0);
    written := PrinterPacket.WritePacket(CommandSetHeat, [heat], buffer);
    PrinterPacket.MakePacketUInt8Layout(CommandSetHeat, heat);
  }
}
