# Thermal-printer packet layer, modelled in Dafny

This project models the packet-protocol core of an ESP32 client for a small
BLE thermal printer. It covers:

- **`Checksum8Bit`** (`checksum8bit.dfy`): the CRC-8 the firmware puts in every frame.
  - Polynomial 0x07, most significant bit first, initial value 0, no final XOR.
  - The bit-doubling construction `generate_table` that fills its 256-entry lookup table.
  - The table-driven fold `calculate`.
- **`PrinterPacket`** (`printer_packet.dfy`): the frame encoder `makePacket` / `makePacketUInt8` / `getPacketLength`.
  - A frame is the magic 0x7851 stored little-endian (51 78), the command, direction 0x00, the payload length (low byte first), the payload, the CRC-8 of the payload, and the end marker 0xFF.
- **`PrinterCommand`** (`printer_command.dfy`): the command catalogue.
- **`PrinterStatus`** (`printer_status.dfy`): the status enumeration, with the byte each state carries.
- **`BlePrinter`** (`ble_printer.dfy`): the protocol side of `BLEPrinter`.
  - The status it keeps, starting from the constant `Initial` with status Unknown (BLEPrinter.h:27), and how a notification updates it through the priority chain of flag tests.
  - The label `getStatusString` prints.
  - The frames `requestStatus` and `setHeat` write.
- **`SourceVectors`** (`source_vectors.dfy`): the frames the firmware's serial shell writes by hand, each proved to be the frame `makePacket` builds for its command and payload.
- **`Bytes`** (`bytes.dfy`): the byte type (`bv8`), `Option`, and small arithmetic helpers.

The model adds a few reference definitions of its own. None of them is firmware code, and none has a row below; the rows for the firmware's members state how those members relate to them:
- `Checksum8Bit.Crc8OfByte` and `Checksum8Bit.CalculateBitwise`: the bit-serial CRC register, eight shifts per byte. `GenerateTable` is proved to build the table of `Crc8OfByte` values, and the table-driven fold is proved to compute `CalculateBitwise`.
- `PrinterPacket.Parse` and `PrinterPacket.Packet`: the firmware has no frame decoder. `Parse` is an inverse written for the model, so that `makePacket` can be proved injective and round-tripping. Of `makePacket`'s frames, it rejects exactly those whose 16-bit length field wrapped.
- `PrinterStatus.FirstSet` and `PrinterStatus.DecodeByPriority`: the status decoding stated as a search down the priority list.
- `PrinterStatus.StatusOfString`: the state each label names.
- `BlePrinter.LastStatusByte`: the status byte of the last status response in a sequence of notifications.

The CRC is not reflected: `generate_table` shifts the register left and tests its top bit (Checksum8Bit.h:30-34).

## Model

| member | source | states |
|---|---|---|
| Checksum8Bit.ShiftStep | src/Checksum8Bit.h:30-34 | one shift of the register (no contract of its own); Crc8OfByteLinear and Crc8OfByteInjective state that eight of them are XOR-linear and lose no information |
| Checksum8Bit.CrcTable | src/Checksum8Bit.h:23-40 | the lookup table has 256 entries; TableEntry states that entry i is the CRC of byte i, and GenerateTable that the firmware's construction builds exactly this table |
| Checksum8Bit.TableEntry | src/Checksum8Bit.h:23-40 | the table entry for a byte is that byte's bit-serial CRC |
| Checksum8Bit.GenerateTable | src/Checksum8Bit.h:23-40 | the bit-doubling construction yields exactly the CRC-8 table (entry i is the bitwise CRC of byte i, entry 0 is 0); the outer loop runs eight rounds and the inner loop writes each index 1..255 exactly once, in increasing order |
| Checksum8Bit.FillBlock | src/Checksum8Bit.h:36-38 | one inner loop extends a table correct below the block size i to one correct below 2i, writing indices i..2i-1 in order |
| Checksum8Bit.FillStep | src/Checksum8Bit.h:37 | the write `table[i + j] = crc ^ table[j]` stores the correct CRC of byte i + j when crc is the CRC of block size i |
| Checksum8Bit.RefEntryBlock | src/Checksum8Bit.h:36-38 | for a block size i and j < i, the CRC of i + j is the CRC of i XOR the CRC of j, which is why the inner loop is correct |
| Checksum8Bit.RefEntryDoubling | src/Checksum8Bit.h:30-34 | doubling a byte below 128 advances its CRC by one register shift, the update the outer loop applies to crc |
| Checksum8Bit.NextRound | src/Checksum8Bit.h:29 | `i <<= 1` from a block size below 256 stays within eight rounds and at most 256 |
| Checksum8Bit.TablePowersOfTwo | src/Checksum8Bit.h:24-34 | the register values after each doubling round, starting from 0x80: 07, 0E, 1C, 38, 70, E0, C7, 89 |
| Checksum8Bit.Crc8OfByteLinear | src/Checksum8Bit.h:30-34 | the eight register shifts are linear over XOR: CRC(a ^ b) == CRC(a) ^ CRC(b) |
| Checksum8Bit.Crc8OfByteInjective | src/Checksum8Bit.h:30-34 | distinct bytes have distinct CRCs |
| Checksum8Bit.Crc8OfByteUnrolled | src/Checksum8Bit.h:30-34 | the CRC of a byte is eight applications of the shift-and-conditional-XOR step |
| Checksum8Bit.TableInjective | src/Checksum8Bit.h:23-40 | the 256 table entries are pairwise distinct |
| Checksum8Bit.Fold | src/Checksum8Bit.h:20 | one lookup `table[acc ^ b]` per byte, from a seed (no contract of its own); FoldIsBitwise states its meaning |
| Checksum8Bit.FoldIsBitwise | src/Checksum8Bit.h:20 | for every buffer and seed, folding through the CRC-8 table gives the bit-serial CRC register |
| Checksum8Bit.Calculate | src/Checksum8Bit.h:20 | `calculate` with the seed defaulting to 0 (no contract of its own); CalculateIsBitwise states that it is the bit-serial CRC, and CalculateAppend that a seed continues a running checksum |
| Checksum8Bit.CalculateLoop | src/Checksum8Bit.h:20 | one table lookup per byte, from any seed, computes the bit-serial CRC register of the whole buffer |
| Checksum8Bit.CalculateIsBitwise | src/Checksum8Bit.h:20 | the table-driven checksum equals the bit-serial CRC for every input and seed |
| Checksum8Bit.CalculateEmpty | src/Checksum8Bit.h:20 | the checksum of an empty buffer is the seed |
| Checksum8Bit.CalculateAppend | src/Checksum8Bit.h:20 | checksumming a concatenation continues from the checksum of the first part, which is what the seed parameter is for |
| Checksum8Bit.CalculateStep | src/Checksum8Bit.h:20 | appending one byte advances the checksum by the CRC of (checksum XOR byte) |
| Checksum8Bit.CalculateSingle | src/Checksum8Bit.h:20 | the checksum of a one-byte buffer is that byte's CRC |
| Checksum8Bit.CalculateCons | src/Checksum8Bit.h:20 | dropping the first byte: the rest is checksummed from the advanced register |
| Checksum8Bit.CalculateRunsTo | src/Checksum8Bit.h:20 | the checksum of a buffer's tail is where the register, stepped byte by byte, ends up |
| Checksum8Bit.CalculateResidue | src/Checksum8Bit.h:20 | a buffer followed by its own checksum checksums to zero |
| Checksum8Bit.CalculateSeedInjective | src/Checksum8Bit.h:20 | for fixed data, different seeds give different checksums |
| Checksum8Bit.CalculateDetectsSubstitution | src/Checksum8Bit.h:20 | two buffers differing in exactly one byte have different checksums |
| PrinterPacket.MakePacket | src/PrinterPacket.cpp:9-29 | the frame is always `getPacketLength` of the payload long; MakePacketLayout and LayoutIsMakePacket state its fields in both directions, and ParseMakePacket and MakePacketParse its round trip |
| PrinterPacket.MakePacketUInt8 | src/PrinterPacket.cpp:31-34 | the one-byte frame is `getPacketLength(1)` bytes long; MakePacketUInt8Layout gives every byte |
| PrinterPacket.PacketLength | src/PrinterPacket.h:10-13 | a frame is the payload plus eight bytes, so it is always longer than the payload |
| PrinterPacket.LengthBytes | src/PrinterPacket.cpp:17-18 | two bytes which, read little-endian, give the payload length modulo 65536 |
| PrinterPacket.LengthBytesValue | src/PrinterPacket.cpp:17-18 | byte by byte, the field is `dataLength & 0xff` followed by `(dataLength >> 8) & 0xff` |
| PrinterPacket.LengthBytesOf | src/PrinterPacket.cpp:17-18 | a length low + 256·high below 65536 is stored as low, then high |
| PrinterPacket.Header | src/PrinterPacket.cpp:13-18 | the header in memory order (no contract of its own); HeaderLayout and HeaderOf state its bytes |
| PrinterPacket.Footer | src/PrinterPacket.cpp:20-24 | the footer in memory order (no contract of its own); FooterOf states its bytes |
| PrinterPacket.HeaderLayout | src/PrinterPacket.cpp:13-18 | the six header bytes are 51 78, the command, 00, and the length's low and high bytes |
| PrinterPacket.MakePacketLayout | src/PrinterPacket.cpp:9-29 | every frame has the layout field by field: magic, command, direction, the length mod 65536, the payload at offset 6, its checksum, then 0xFF |
| PrinterPacket.MakePacketShort | src/PrinterPacket.cpp:13-28 | for a payload shorter than 256 bytes, the frame is 51 78 cmd 00 len 00, then the payload, its checksum and FF |
| PrinterPacket.MakePacketUInt8Layout | src/PrinterPacket.cpp:31-34 | a one-byte frame is 51 78 cmd 00 01 00 b CRC(b) FF |
| PrinterPacket.WritePacket | src/PrinterPacket.cpp:9-29 | given a buffer at least `getPacketLength` long, as the assertion demands, the frame is written at its start and every later byte keeps its value |
| PrinterPacket.CopyInto | src/PrinterPacket.cpp:26-28 | the copies place the source bytes at the start of the buffer and leave the rest untouched |
| PrinterPacket.HeaderOf | src/PrinterPacket.cpp:13-18 | six bytes with magic, direction and a length field matching n mod 65536 are the header for n |
| PrinterPacket.FooterOf | src/PrinterPacket.cpp:20-24 | the last two bytes are the footer exactly when they hold the payload's checksum and 0xFF, in both directions |
| PrinterPacket.Assemble | src/PrinterPacket.cpp:26-28 | header, payload and footer in consecutive positions make the encoder's frame |
| PrinterPacket.LayoutIsMakePacket | src/PrinterPacket.cpp:9-29 | the field-by-field layout determines the frame: only the encoder's frame has it |
| PrinterPacket.ParseLayout | src/PrinterPacket.cpp:9-29 | a frame laid out for a payload below 64 KiB decodes to its command and payload |
| PrinterPacket.ParseSomeLayout | src/PrinterPacket.cpp:9-29 | anything that decodes is laid out for what it decodes to, with a payload below 64 KiB |
| PrinterPacket.ParseMakePacket | src/PrinterPacket.cpp:9-29 | round trip: decoding the encoder's frame for a payload below 64 KiB gives back the command and payload |
| PrinterPacket.MakePacketParse | src/PrinterPacket.cpp:9-29 | round trip the other way: every frame that decodes is exactly the encoder's frame for its command and payload |
| PrinterPacket.MakePacketInjective | src/PrinterPacket.cpp:9-29 | different commands or payloads give different frames, for payloads of any length, including those whose length field wraps |
| PrinterPacket.LengthFieldWraps | src/PrinterPacket.cpp:17-18 | a payload of 64 KiB or more is announced with its length mod 65536, so its frame is not well formed |
| PrinterCommand.Opcode | src/PrinterCommand.h:5-16 | the byte of each enumerator (no contract of its own); OpcodeRoundTrip, OpcodeInjective and CatalogueSize state that the nine bytes are distinct and lie in 0xA2..0xBF |
| PrinterCommand.CommandOf | src/PrinterCommand.h:5-16 | only bytes in 0xA2..0xBF name a command |
| PrinterCommand.OpcodeRoundTrip | src/PrinterCommand.h:7-15 | each enumerator's byte names that enumerator back and lies in 0xA2..0xBF |
| PrinterCommand.CommandOfRoundTrip | src/PrinterCommand.h:7-15 | a byte that names an enumerator is that enumerator's byte |
| PrinterCommand.OpcodeInjective | src/PrinterCommand.h:7-15 | no two commands share a byte |
| PrinterCommand.CatalogueSize | src/PrinterCommand.h:5-16 | the catalogue lists all nine commands, with nine distinct bytes |
| PrinterStatus.Value | src/BLEPrinterStatus.h:5-14 | the byte of each state (no contract of its own); FlagsAreDisjointBits, FlagMask and UnknownValueDecodesAsNoPaper state what those bytes are as bits |
| PrinterStatus.Decode | src/BLEPrinter.cpp:68-83 | the status chain of the callback (no contract of its own); DecodeMeaning states each result in both directions, DecodeIsByPriority the priority order |
| PrinterStatus.DecodeIsByPriority | src/BLEPrinter.cpp:68-83 | the if-chain equals the first flag, in the order Busy, NoPaper, CoverOpen, Overheat, LowPower, whose bit is set (Ready for zero, Unknown if none) |
| PrinterStatus.FirstSetCons | src/BLEPrinter.cpp:71-83 | the priority search tests the head of the list before the rest |
| PrinterStatus.DecodeMeaning | src/BLEPrinter.cpp:68-83 | each result in both directions: Ready iff the byte is 0; Unknown iff it is nonzero with no bit of 0x8F; each flag iff its bit is set and no earlier flag's is |
| PrinterStatus.DecodeSingleFlag | src/BLEPrinterStatus.h:8-12 | each flag value alone decodes to its own state |
| PrinterStatus.FlagsAreDisjointBits | src/BLEPrinterStatus.h:7-12 | the five flags are single, pairwise disjoint bits; Ready is 0 and Unknown is not a single bit |
| PrinterStatus.FlagMask | src/BLEPrinterStatus.h:8-12 | together the flags cover 0x8F |
| PrinterStatus.UnknownValueDecodesAsNoPaper | src/BLEPrinterStatus.h:9-13 | Unknown's implicit value 9 is NoPaper OR LowPower, and a status byte 9 decodes to NoPaper |
| PrinterStatus.StatusString | src/BLEPrinter.cpp:105-125 | every state has a non-empty label; StatusStringRoundTrip and StatusStringInjective state that the label names the state |
| PrinterStatus.StatusStringRoundTrip | src/BLEPrinter.cpp:105-125 | every state has a label that names it back |
| PrinterStatus.StatusStringInjective | src/BLEPrinter.cpp:105-125 | distinct states print distinct labels |
| BlePrinter.GetStatus | src/BLEPrinter.h:16 | the status the printer holds (no contract of its own); UnknownUntilStatusResponse and ReplayIsLastStatus state what it reports |
| BlePrinter.OnNotify | src/BLEPrinter.cpp:63-86 | one notification (no contract of its own); ReplayIsLastStatus, ReplaySnoc and OnNotifyIdempotent state its effect over any sequence |
| BlePrinter.ReplayIsLastStatus | src/BLEPrinter.cpp:63-86 | after any sequence of notifications, the status is the decoding of the status byte of the last status response (A3 at offset 2, status at offset 6), or unchanged if none came |
| BlePrinter.ReplaySnoc | src/BLEPrinter.cpp:63-86 | processing one more notification after a sequence is the callback applied to the state the sequence left |
| BlePrinter.UnknownUntilStatusResponse | src/BLEPrinter.h:27 | a printer reports Unknown until its first status response arrives |
| BlePrinter.NoStatusResponse | src/BLEPrinter.cpp:63 | a sequence with no status response contains no status byte to decode |
| BlePrinter.OnNotifyIdempotent | src/BLEPrinter.cpp:63-83 | a notification delivered twice leaves the same status as delivered once |
| BlePrinter.CommandConstants | src/BLEPrinter.h:34-37 | the class's own command bytes agree with the catalogue, and 0x52 is not a catalogue command |
| BlePrinter.RequestStatus | src/BLEPrinter.cpp:21-32 | the nine-byte buffer holds 51 78 A3 00 01 00 01 07 FF |
| BlePrinter.RequestStatusFrame | src/BLEPrinter.cpp:23-26 | `makePacketUInt8(CommandStatus, 0x01)` is 51 78 A3 00 01 00 01 07 FF |
| BlePrinter.SetHeat | src/BLEPrinter.cpp:127-132 | the heat frame is 51 78 A4 00 01 00 heat CRC(heat) FF, filling its `getPacketLength(1)` buffer exactly |
| SourceVectors.FrameIs | src/main.cpp:200 | the step the multi-byte vectors share (main.cpp lines 200, 255, 263, 503 and 551): a hand-written short frame is `makePacket`'s frame once its checksum byte is the payload's checksum |
| SourceVectors.SetHeatFrame | src/main.cpp:192-196 | `makePacketUInt8(0xA4, 0x05)` equals the hand-written frame it is asserted equal to |
| SourceVectors.SetEnergyFrame | src/main.cpp:200 | the hand-written set-energy frame is the encoder's frame for AF, [80 3E] |
| SourceVectors.SetEnergyChecksum | src/main.cpp:200 | the checksum of 80 3E is 0C |
| SourceVectors.PaperSpeedFrame | src/main.cpp:203 | the paper-speed frame is the encoder's frame for BD, [2D] |
| SourceVectors.DraftFrame | src/main.cpp:207 | the draft frame is the encoder's frame for BE, [01] |
| SourceVectors.LatticeStartFrame | src/main.cpp:255 | the 19-byte lattice frame is the encoder's frame for A6 and its 11-byte payload, checksum A1 |
| SourceVectors.LatticeStartChecksum | src/main.cpp:255 | the checksum of the 11-byte lattice payload is A1 |
| SourceVectors.EnergyFrame | src/main.cpp:263 | the energy frame is the encoder's frame for AF, [E0 2E] |
| SourceVectors.EnergyChecksum | src/main.cpp:263 | the checksum of E0 2E is 89 |
| SourceVectors.DraftOffFrame | src/main.cpp:271 | the frame for BE, [00] carries checksum 00 |
| SourceVectors.FeedSpeedFrame | src/main.cpp:279 | the feed-speed frame is the encoder's frame for BD, [50] |
| SourceVectors.SlowFeedSpeedFrame | src/main.cpp:499 | the feed-speed frame is the encoder's frame for BD, [19] |
| SourceVectors.ScrollFrame | src/main.cpp:503 | the hand-written frame for A1, [30 00] is what `makePacket` builds for the same command and payload (main.cpp:518-522) |
| SourceVectors.ScrollChecksum | src/main.cpp:503 | the checksum of 30 00 is F9 |
| SourceVectors.LatticeEndFrame | src/main.cpp:551 | the closing lattice frame is the encoder's frame for A6 and its 11-byte payload, checksum 11 |
| SourceVectors.LatticeEndChecksum | src/main.cpp:551 | the checksum of the closing lattice payload is 11 |
| SourceVectors.StatusZeroFrame | src/main.cpp:555 | the status request with sub-type 00 is the encoder's frame for A3, [00] |

## Left out

- The BLE transport is not modelled: the client, services, characteristics, `enableNotifications`, `write` and `getName`. A notification is modelled as its payload bytes, and a write as the bytes written.
- Serial logging and hex dumps are not modelled. This includes the `isNotify` flag of the callback, which only selects a log line.
- The serial command shell in `main.cpp` (`setup`, `loop`, scanning and connecting) is not modelled. Its hand-written frames are checked as vectors in `SourceVectors`, except the following:
  - The 48-byte print frames (main.cpp:212 and 292-495) are left out. Each would need a 48-step checksum chain, and the shorter vectors already exercise the same encoder.
  - The energy payload computed at main.cpp:240-241 is left out (see the next point).
- The energy payload at main.cpp:240-241 is `16000 % 0xff, 16000 / 0xff`. This gives BE 3E rather than the 80 3E of the hand-written frame at line 200. It is shell code outside the packet layer and is not modelled.
- `Checksum8Bit::calculate` is only declared (Checksum8Bit.h:20); its definition is not part of this model. `Checksum8Bit.Calculate` models it as the usual table-driven fold `acc = table[acc ^ b]` from the seed, which defaults to 0. Every hand-written frame proved in `SourceVectors` agrees with that fold; the 48-byte print frames are not proved here.
- The process-wide `crc_table` variable and the `CHECKSUM8BIT_STATIC_TABLE` alternative are not modelled. The table is the value `CrcTable()`, and `GenerateTable` is proved to build it.
- The magic is written as a `uint16_t` in host byte order. The model fixes the little-endian order of the ESP32 target (51 78).
- `getPacketLength` returns a `size_t`. The model uses unbounded naturals and does not model its overflow.
- BlePrinter.OnNotify: requires the notification to hold the bytes the callback reads: offset 2 always, and offset 6 for a status response. `notifyCallback` never checks `length`, and reads past a shorter buffer; the model does not represent that read.
- PrinterStatus.StatusString: the `default:` branch of `getStatusString` cannot be reached from a value of the `Status` datatype, so only the seven named cases are modelled.
