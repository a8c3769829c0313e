/** The decoded operation: which command, and its key and value. */
module Commands {
  import opened Bytes

  /** The `Command` enumeration, in the order `iota` numbers it, so the
      zero value is `SetCommand`. */
  datatype Command = SetCommand | GetCommand | ClearCommand | UnknownCommand

  /** `Command.String`. */
  function Name(c: Command): (s: string)
    ensures (s == "Unknown") == (c == UnknownCommand)
  {
    match c
    case SetCommand => "Set"
    case GetCommand => "Get"
    case ClearCommand => "Clear"
    case UnknownCommand => "Unknown"
  }

  /** No two commands print alike. */
  lemma NamesDistinct(c: Command, d: Command)
    ensures Name(c) == Name(d) ==> c == d
  {
  }

  /** `CommandInfo`. Keys and values are the raw bytes of the Go strings. */
  datatype CommandInfo = CommandInfo(cmd: Command, key: seq<byte>, value: seq<byte>)

  /** `CommandInfo{}`: Go's zero value, whose command is `SetCommand`. */
  const ZeroInfo := CommandInfo(SetCommand, [], [])
}
