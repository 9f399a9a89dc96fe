/**
 * The command-line scan of `main` (src/main.rs): a single pass over the
 * arguments that fills four optional slots (TCP port, UDP port, TCP bind
 * address, UDP bind address), returns early on `-h` or on the first flag
 * whose value is missing or invalid, skips every other token, and starts
 * the multiplexer only when all four slots are filled.
 *
 * `Scan` is the specification, one token at a time; `ScanArgs` is the
 * source's loop over mutable slots, proved equal to it.
 */
module Args {
  import opened Options

  newtype u8 = x: int | 0 <= x < 0x100
  newtype u16 = x: int | 0 <= x < 0x1_0000

  /** `std::net::IpAddr`. */
  datatype IpAddr = V4(a: u8, b: u8, c: u8, d: u8) | V6(segments: seq<u16>)

  /**
   * The library parsers the scan calls, taken as given: `str::parse::<u16>`
   * and `str::parse::<IpAddr>`, each `None` where the library returns `Err`.
   */
  datatype Parsers = Parsers(port: string -> Option<u16>, addr: string -> Option<IpAddr>)

  /** The four value-taking flags: `-t`, `-u`, `-s` and `-c`. */
  datatype Flag = TcpPort | UdpPort | TcpAddr | UdpAddr {
    predicate IsPort() {
      this == TcpPort || this == UdpPort
    }
  }

  datatype ArgError =
    | MissingValue   // the flag is the last argument
    | NotAnInteger   // the port does not parse as a u16
    | PortZero       // the port parses but is 0
    | NotAnAddress   // the address does not parse as an IpAddr
    | NotIpv4        // the address parses but is IPv6

  /** The arguments of `handle_multiplexing`, in its parameter order. */
  datatype Config = Config(udpPort: u16, tcpPort: u16, udpAddr: IpAddr, tcpAddr: IpAddr)

  datatype Outcome =
    | ShowHelp                              // help printed, nothing started
    | Rejected(flag: Flag, error: ArgError) // message and help printed, nothing started
    | Incomplete                            // some slot unset: message and help printed
    | Start(config: Config)                 // `handle_multiplexing(config)` is called

  /** A value given to a flag. */
  datatype Value = Port(port: u16) | Addr(addr: IpAddr)

  /** The four `Option` variables of the scan. */
  datatype Slots = Slots(tcpPort: Option<u16>, udpPort: Option<u16>, tcpAddr: Option<IpAddr>, udpAddr: Option<IpAddr>)

  const NoSlots := Slots(None, None, None, None)

  /** What one token makes the scan do. */
  datatype Action = Skip | Help | Reject(flag: Flag, error: ArgError) | Set(flag: Flag, value: Value)

  predicate Stops(a: Action) {
    a.Help? || a.Reject?
  }

  function FlagOf(token: string): Option<Flag> {
    if token == "-t" then Some(TcpPort)
    else if token == "-u" then Some(UdpPort)
    else if token == "-s" then Some(TcpAddr)
    else if token == "-c" then Some(UdpAddr)
    else None
  }

  /**
   * The action of the token at index `i`. A flag's value is read from the
   * next token, which is then examined again in its own turn.
   */
  function Examine(args: seq<string>, i: nat, p: Parsers): Action
    requires i < |args|
  {
    if args[i] == "-h" then Help
    else match FlagOf(args[i])
      case None => Skip
      case Some(f) =>
        if i + 1 >= |args| then Reject(f, MissingValue)
        else if f.IsPort() then
          match p.port(args[i + 1])
          case None => Reject(f, NotAnInteger)
          case Some(n) => if n > 0 then Set(f, Port(n)) else Reject(f, PortZero)
        else
          match p.addr(args[i + 1])
          case None => Reject(f, NotAnAddress)
          case Some(ip) => if ip.V4? then Set(f, Addr(ip)) else Reject(f, NotIpv4)
  }

  /** Stores a value in the flag's slot; a later value replaces an earlier one. */
  function Store(slots: Slots, f: Flag, v: Value): Slots {
    match (f, v)
    case (TcpPort, Port(n)) => slots.(tcpPort := Some(n))
    case (UdpPort, Port(n)) => slots.(udpPort := Some(n))
    case (TcpAddr, Addr(ip)) => slots.(tcpAddr := Some(ip))
    case (UdpAddr, Addr(ip)) => slots.(udpAddr := Some(ip))
    case _ => slots
  }

  /** The slot of a flag, as a `Value`. */
  function Get(slots: Slots, f: Flag): Option<Value> {
    match f
    case TcpPort => if slots.tcpPort.Some? then Some(Port(slots.tcpPort.value)) else None
    case UdpPort => if slots.udpPort.Some? then Some(Port(slots.udpPort.value)) else None
    case TcpAddr => if slots.tcpAddr.Some? then Some(Addr(slots.tcpAddr.value)) else None
    case UdpAddr => if slots.udpAddr.Some? then Some(Addr(slots.udpAddr.value)) else None
  }

  /** The value `handle_multiplexing` is given for a flag. */
  function ConfigValue(cfg: Config, f: Flag): Value {
    match f
    case TcpPort => Port(cfg.tcpPort)
    case UdpPort => Port(cfg.udpPort)
    case TcpAddr => Addr(cfg.tcpAddr)
    case UdpAddr => Addr(cfg.udpAddr)
  }

  /** The check after the loop: start only when all four slots are set. */
  function Finish(slots: Slots): Outcome {
    if slots.udpPort.Some? && slots.tcpPort.Some? && slots.udpAddr.Some? && slots.tcpAddr.Some? then
      Start(Config(slots.udpPort.value, slots.tcpPort.value, slots.udpAddr.value, slots.tcpAddr.value))
    else Incomplete
  }

  /** The scan from index `i` on, with the slots filled so far. */
  function ScanFrom(args: seq<string>, i: nat, slots: Slots, p: Parsers): Outcome
    requires i <= |args|
    decreases |args| - i
  {
    if i == |args| then Finish(slots)
    else match Examine(args, i, p)
      case Help => ShowHelp
      case Reject(f, e) => Rejected(f, e)
      case Skip => ScanFrom(args, i + 1, slots, p)
      case Set(f, v) => ScanFrom(args, i + 1, Store(slots, f, v), p)
  }

  /** `main`: fewer than two arguments (the program name counts) only print the help. */
  function Scan(args: seq<string>, p: Parsers): Outcome {
    if |args| < 2 then ShowHelp else ScanFrom(args, 1, NoSlots, p)
  }

  /**
   * The scan as `main` performs it: a `for` loop over the arguments
   * updating four optional variables, with an early return for help and
   * for each invalid flag.
   */
  method ScanArgs(args: seq<string>, p: Parsers) returns (outcome: Outcome)
    ensures outcome == Scan(args, p)
  {
    if |args| < 2 {
      return ShowHelp;
    }
    var tcpPort: Option<u16> := None;
    var udpPort: Option<u16> := None;
    var clientAddress: Option<IpAddr> := None;
    var serverAddress: Option<IpAddr> := None;
    for i := 1 to |args|
      invariant Scan(args, p) == ScanFrom(args, i, Slots(tcpPort, udpPort, serverAddress, clientAddress), p)
    {
      var arg := args[i];
      if arg == "-h" {
        return ShowHelp;
      } else if arg == "-t" {
        if i + 1 < |args| {
          match p.port(args[i + 1])
          case Some(port) =>
            if port > 0 {
              tcpPort := Some(port);
            } else {
              return Rejected(TcpPort, PortZero);
            }
          case None =>
            return Rejected(TcpPort, NotAnInteger);
        } else {
          return Rejected(TcpPort, MissingValue);
        }
      } else if arg == "-u" {
        if i + 1 < |args| {
          match p.port(args[i + 1])
          case Some(port) =>
            if port > 0 {
              udpPort := Some(port);
            } else {
              return Rejected(UdpPort, PortZero);
            }
          case None =>
            return Rejected(UdpPort, NotAnInteger);
        } else {
          return Rejected(UdpPort, MissingValue);
        }
      } else if arg == "-s" {
        if i + 1 < |args| {
          match p.addr(args[i + 1])
          case Some(ip) =>
            if ip.V4? {
              serverAddress := Some(ip);
            } else {
              return Rejected(TcpAddr, NotIpv4);
            }
          case None =>
            return Rejected(TcpAddr, NotAnAddress);
        } else {
          return Rejected(TcpAddr, MissingValue);
        }
      } else if arg == "-c" {
        if i + 1 < |args| {
          match p.addr(args[i + 1])
          case Some(ip) =>
            if ip.V4? {
              clientAddress := Some(ip);
            } else {
              return Rejected(UdpAddr, NotIpv4);
            }
          case None =>
            return Rejected(UdpAddr, NotAnAddress);
        } else {
          return Rejected(UdpAddr, MissingValue);
        }
      }
    }
    if udpPort.Some? && tcpPort.Some? && clientAddress.Some? && serverAddress.Some? {
      return Start(Config(udpPort.value, tcpPort.value, clientAddress.value, serverAddress.value));
    }
    return Incomplete;
  }
}
