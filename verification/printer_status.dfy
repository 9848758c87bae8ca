/**
 * `BLEPrinterStatus`: the states the client reports, the byte each enumerator
 * carries, and the priority chain that turns the status byte of a status
 * response into one state.
 */
module PrinterStatus {
  import opened Bytes

  /** The enumerators of `BLEPrinterStatus`, in declaration order. */
  datatype Status = Ready | Busy | NoPaper | CoverOpen | Overheat | LowPower | Unknown

  /** The underlying `uint8_t` of each enumerator; `Unknown` follows `LowPower` implicitly. */
  function Value(s: Status): byte {
    match s
    case Ready => 0x00
    case Busy => 0x80
    case NoPaper => 0x01
    case CoverOpen => 0x02
    case Overheat => 0x04
    case LowPower => 0x08
    case Unknown => 0x09
  }

  /** The flag states in the order the status byte is tested. */
  const Priority: seq<Status> := [Busy, NoPaper, CoverOpen, Overheat, LowPower]

  /** A byte with exactly one bit set. */
  predicate SingleBit(b: byte) {
    b != 0 && b & (b - 1) == 0
  }

  /** `(status & flag) == flag` for the flag of `s`. */
  predicate HasFlag(status: byte, s: Status) {
    status & Value(s) == Value(s)
  }

  /**
   * The chain in `notifyCallback`: zero is Ready; otherwise the first flag
   * of Busy, NoPaper, CoverOpen, Overheat, LowPower whose bit is set;
   * otherwise Unknown.
   */
  function Decode(status: byte): Status {
    if status == 0x00 then Ready
    else if HasFlag(status, Busy) then Busy
    else if HasFlag(status, NoPaper) then NoPaper
    else if HasFlag(status, CoverOpen) then CoverOpen
    else if HasFlag(status, Overheat) then Overheat
    else if HasFlag(status, LowPower) then LowPower
    else Unknown
  }

  /** Reference definition: the first state of `flags` whose flag is set in `status`. */
  function FirstSet(status: byte, flags: seq<Status>): (s: Status)
    ensures s == Unknown || s in flags
    decreases |flags|
  {
    if |flags| == 0 then Unknown
    else if HasFlag(status, flags[0]) then flags[0]
    else FirstSet(status, flags[1..])
  }

  /** Reference definition of the status decoding, driven by the priority list. */
  function DecodeByPriority(status: byte): Status {
    if status == 0x00 then Ready else FirstSet(status, Priority)
  }

  /** Testing the first state of a list, then the rest. */
  lemma FirstSetCons(status: byte, s: Status, rest: seq<Status>)
    ensures FirstSet(status, [s] + rest) == if HasFlag(status, s) then s else FirstSet(status, rest)
  {
    assert ([s] + rest)[1..] == rest;
  }

  /** The chain of `if`s in the callback is the priority-list decoding. */
  lemma DecodeIsByPriority(status: byte)
    ensures Decode(status) == DecodeByPriority(status)
  {
    var p4: seq<Status> := [LowPower];
    var p3 := [Overheat] + p4;
    var p2 := [CoverOpen] + p3;
    var p1 := [NoPaper] + p2;
    assert Priority == [Busy] + p1;
    FirstSetCons(status, Busy, p1);
    FirstSetCons(status, NoPaper, p2);
    FirstSetCons(status, CoverOpen, p3);
    FirstSetCons(status, Overheat, p4);
    FirstSetCons(status, LowPower, []);
    assert p4 == [LowPower] + [];
  }

  /** The five flags are single bits, pairwise disjoint; Ready is no bit at all. */
  lemma FlagsAreDisjointBits()
    ensures forall s :: s in Priority ==> SingleBit(Value(s))
    ensures forall i, j :: 0 <= i < j < |Priority| ==> Value(Priority[i]) & Value(Priority[j]) == 0
    ensures Value(Ready) == 0 && !SingleBit(Value(Unknown))
  {
  }

  /** The flag bits together are 0x8F; the byte values 0x10, 0x20 and 0x40 carry no state. */
  lemma FlagMask()
    ensures Value(Busy) | Value(NoPaper) | Value(CoverOpen) | Value(Overheat) | Value(LowPower) == 0x8F
  {
  }

  /**
   * What each result of the decoding means: Ready exactly for zero, Unknown
   * exactly for a nonzero byte with no flag bit set, and a flag state exactly
   * when its bit is set and no flag tested before it is.
   */
  lemma DecodeMeaning(status: byte)
    ensures Decode(status) == Ready <==> status == 0
    ensures Decode(status) == Unknown <==> status != 0 && status & 0x8F == 0
    ensures Decode(status) == Busy <==> status & 0x80 != 0
    ensures Decode(status) == NoPaper <==> status & 0x80 == 0 && status & 0x01 != 0
    ensures Decode(status) == CoverOpen <==> status & 0x81 == 0 && status & 0x02 != 0
    ensures Decode(status) == Overheat <==> status & 0x83 == 0 && status & 0x04 != 0
    ensures Decode(status) == LowPower <==> status & 0x87 == 0 && status & 0x08 != 0
  {
  }

  /** Every flag on its own decodes to its own state. */
  lemma DecodeSingleFlag(s: Status)
    requires s in Priority
    ensures Decode(Value(s)) == s
  {
  }

  /**
   * The byte of `Unknown` is not a status the printer can send to mean
   * Unknown: 0x09 carries the NoPaper and LowPower bits and decodes as NoPaper.
   */
  lemma UnknownValueDecodesAsNoPaper()
    ensures Value(Unknown) == Value(NoPaper) | Value(LowPower)
    ensures Decode(Value(Unknown)) == NoPaper
  {
  }

  /** `getStatusString`: the label printed for each state. */
  function StatusString(s: Status): (text: string)
    ensures |text| > 0
  {
    match s
    case Ready => "Ready"
    case Busy => "Busy"
    case NoPaper => "No paper"
    case CoverOpen => "Cover open"
    case Overheat => "Overheat"
    case LowPower => "Low power"
    case Unknown => "Unknown"
  }

  /** Reference inverse: the state a label names. */
  function StatusOfString(text: string): Option<Status> {
    if text == "Ready" then Some(Ready)
    else if text == "Busy" then Some(Busy)
    else if text == "No paper" then Some(NoPaper)
    else if text == "Cover open" then Some(CoverOpen)
    else if text == "Overheat" then Some(Overheat)
    else if text == "Low power" then Some(LowPower)
    else if text == "Unknown" then Some(Unknown)
    else None
  }

  /** Every state has a label and no two states share one. */
  lemma StatusStringRoundTrip(s: Status)
    ensures StatusOfString(StatusString(s)) == Some(s)
  {
  }

  /** Distinct states print distinct labels. */
  lemma StatusStringInjective(a: Status, b: Status)
    requires StatusString(a) == StatusString(b)
    ensures a == b
  {
    StatusStringRoundTrip(a);
    StatusStringRoundTrip(b);
  }
}
