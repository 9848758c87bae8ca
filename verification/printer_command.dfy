/**
 * `PrinterCommand`: the command bytes the firmware knows, each the third
 * byte of a frame.
 */
module PrinterCommand {
  import opened Bytes

  /** The enumerators of `PrinterCommand`, in declaration order. */
  datatype Command =
    | PrintData
    | Status
    | SetHeat
    | PrintStartStop
    | GetDeviceInfo
    | SetEnergy
    | Draft
    | PaperFeedSpeed
    | PrintDataCompressed

  /** Every enumerator, in declaration order. */
  const AllCommands: seq<Command> :=
    [PrintData, Status, SetHeat, PrintStartStop, GetDeviceInfo, SetEnergy, Draft, PaperFeedSpeed, PrintDataCompressed]

  /** The command byte of each enumerator. */
  function Opcode(c: Command): byte {
    match c
    case PrintData => 0xA2
    case Status => 0xA3
    case SetHeat => 0xA4
    case PrintStartStop => 0xA6
    case GetDeviceInfo => 0xA8
    case SetEnergy => 0xAF
    case Draft => 0xBE
    case PaperFeedSpeed => 0xBD
    case PrintDataCompressed => 0xBF
  }

  /** Reference inverse: the enumerator a command byte names, if any. */
  function CommandOf(b: byte): (r: Option<Command>)
    ensures r.Some? ==> 0xA2 <= b <= 0xBF
  {
    if b == 0xA2 then Some(PrintData)
    else if b == 0xA3 then Some(Status)
    else if b == 0xA4 then Some(SetHeat)
    else if b == 0xA6 then Some(PrintStartStop)
    else if b == 0xA8 then Some(GetDeviceInfo)
    else if b == 0xAF then Some(SetEnergy)
    else if b == 0xBE then Some(Draft)
    else if b == 0xBD then Some(PaperFeedSpeed)
    else if b == 0xBF then Some(PrintDataCompressed)
    else None
  }

  /** Every command byte names its enumerator back, and lies in 0xA2..0xBF. */
  lemma OpcodeRoundTrip(c: Command)
    ensures CommandOf(Opcode(c)) == Some(c)
    ensures 0xA2 <= Opcode(c) <= 0xBF
  {
  }

  /** A byte that names an enumerator is that enumerator's command byte. */
  lemma CommandOfRoundTrip(b: byte)
    requires CommandOf(b).Some?
    ensures Opcode(CommandOf(b).value) == b
  {
  }

  /** No two enumerators share a command byte. */
  lemma OpcodeInjective(a: Command, b: Command)
    requires Opcode(a) == Opcode(b)
    ensures a == b
  {
    OpcodeRoundTrip(a);
    OpcodeRoundTrip(b);
  }

  /** The catalogue lists nine commands with nine distinct bytes. */
  lemma CatalogueSize()
    ensures |AllCommands| == 9
    ensures forall c: Command :: c in AllCommands
    ensures forall i, j :: 0 <= i < j < |AllCommands| ==> Opcode(AllCommands[i]) != Opcode(AllCommands[j])
  {
    forall c: Command
      ensures c in AllCommands
    {
      match c
      case PrintData => assert AllCommands[0] == c;
      case Status => assert AllCommands[1] == c;
      case SetHeat => assert AllCommands[2] == c;
      case PrintStartStop => assert AllCommands[3] == c;
      case GetDeviceInfo => assert AllCommands[4] == c;
      case SetEnergy => assert AllCommands[5] == c;
      case Draft => assert AllCommands[6] == c;
      case PaperFeedSpeed => assert AllCommands[7] == c;
      case PrintDataCompressed => assert AllCommands[8] == c;
    }
  }
}
