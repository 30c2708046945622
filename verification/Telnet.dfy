// The Telnet side of RFC 2217, as functions on values (src/core/rfc2217_proto.c): framing by RFC 854
// and RFC 855, option negotiation, and the COM-PORT-OPTION replies of RFC 2217.
module Telnet {
  import opened Bytes

  const IAC: byte := 255
  const DONT: byte := 254
  const DO: byte := 253
  const WONT: byte := 252
  const WILL: byte := 251
  const SB: byte := 250
  const SE: byte := 240
  const OPT_BINARY: byte := 0
  const OPT_SGA: byte := 3
  const OPT_COM_PORT: byte := 44
  const SB_MAX := 64
  const CONTROL_DTR_ON: byte := 8
  const CONTROL_DTR_OFF: byte := 9

  // "SVS Bridge"
  const SIGNATURE: seq<byte> := [83, 86, 83, 32, 66, 114, 105, 100, 103, 101]

  // ----- Framing -----

  datatype St = InData | InIac | InVerb | InSb | InSbIac

  // The parser between two bytes: where it is, the verb and the subnegotiation being read
  datatype Frame = Frame(st: St, verb: byte, sb: seq<byte>, overflow: bool)

  const NEW_FRAME := Frame(InData, 0, [], false)

  // What the parser hands on: a byte of data, a negotiation, or a whole subnegotiation
  datatype Token = Data(b: byte) | Command(verb: byte, opt: byte) | Subnegotiation(body: seq<byte>, overflow: bool)

  function PushSb(f: Frame, b: byte): Frame {
    if |f.sb| < SB_MAX then f.(sb := f.sb + [b]) else f.(overflow := true)
  }

  function FrameStep(f: Frame, b: byte): (Frame, seq<Token>) {
    match f.st
    case InData => if b == IAC then (f.(st := InIac), []) else (f, [Data(b)])
    case InIac =>
      if b == IAC then (f.(st := InData), [Data(IAC)])
      else if b >= WILL then (f.(verb := b, st := InVerb), [])
      else if b == SB then (f.(sb := [], overflow := false, st := InSb), [])
      else (f.(st := InData), [])
    case InVerb => (f.(st := InData), [Command(f.verb, b)])
    case InSb => if b == IAC then (f.(st := InSbIac), []) else (PushSb(f, b), [])
    case InSbIac =>
      if b == IAC then (PushSb(f, IAC).(st := InSb), [])
      else if b == SE then (f.(st := InData), [Subnegotiation(f.sb, f.overflow)])
      else (f.(st := InSb), [])
  }

  // The parser after a stream, and all it handed on
  function FrameRun(f: Frame, s: seq<byte>): (Frame, seq<Token>) {
    if s == [] then (f, [])
    else
      var (f1, t1) := FrameRun(f, s[..|s| - 1]);
      var (f2, t2) := FrameStep(f1, s[|s| - 1]);
      (f2, t1 + t2)
  }

  // ----- What the server remembers and answers -----

  // The options as the set of those whose bit is set; only options below 32 have a bit
  datatype Session = Session(
    we: set<byte>,
    they: set<byte>,
    baud: nat,
    datasize: byte,
    parity: byte,
    stopsize: byte,
    dtr: bool)

  const NEW_SESSION := Session({}, {}, 9600, 8, 1, 1, false)

  datatype Reply = Announce(verb: byte, opt: byte) | ComPort(cmd: byte, payload: seq<byte>)

  predicate WeAccept(opt: byte) { opt == OPT_BINARY || opt == OPT_SGA }

  predicate TheyAccept(opt: byte) { opt == OPT_BINARY || opt == OPT_SGA || opt == OPT_COM_PORT }

  // 1 << opt, or nothing for an option past 31
  function BitOf(opt: byte): set<byte> { if opt < 32 then {opt} else {} }

  const GREETING: seq<Reply> := [
    Announce(WILL, OPT_BINARY), Announce(DO, OPT_BINARY), Announce(WILL, OPT_SGA), Announce(DO, OPT_SGA),
    Announce(DO, OPT_COM_PORT)]

  function Greeted(s: Session): Session {
    s.(we := s.we + {OPT_BINARY, OPT_SGA}, they := s.they + {OPT_BINARY, OPT_SGA})
  }

  function OnVerb(s: Session, verb: byte, opt: byte): (Session, seq<Reply>) {
    if opt == OPT_COM_PORT then
      (s, if verb == WILL then [Announce(DO, opt)] else if verb == DO then [Announce(WONT, opt)] else [])
    else
      var b := BitOf(opt);
      if verb == WILL then
        if !TheyAccept(opt) then (s, [Announce(DONT, opt)])
        else (s.(they := s.they + b), if s.they * b == {} then [Announce(DO, opt)] else [])
      else if verb == WONT then (s.(they := s.they - b), if s.they * b != {} then [Announce(DONT, opt)] else [])
      else if verb == DO then
        if !WeAccept(opt) then (s, [Announce(WONT, opt)])
        else (s.(we := s.we + b), if s.we * b == {} then [Announce(WILL, opt)] else [])
      else if verb == DONT then (s.(we := s.we - b), if s.we * b != {} then [Announce(WONT, opt)] else [])
      else (s, [])
  }

  // Four bytes, most significant first
  function U32Of(b: seq<byte>): nat
    requires |b| >= 4
  {
    0x100_0000 * b[0] as int + 0x1_0000 * b[1] as int + 0x100 * b[2] as int + b[3] as int
  }

  function BytesOf(v: nat): seq<byte> {
    [v / 0x100_0000 % 256, v / 0x1_0000 % 256, v / 0x100 % 256, v % 256]
  }

  // The setting that SET-DATASIZE, SET-PARITY or SET-STOPSIZE is about
  function Field(s: Session, cmd: byte): byte {
    if cmd == 2 then s.datasize else if cmd == 3 then s.parity else s.stopsize
  }

  function WithField(s: Session, cmd: byte, v: byte): Session {
    if cmd == 2 then s.(datasize := v) else if cmd == 3 then s.(parity := v) else s.(stopsize := v)
  }

  // A complete subnegotiation; the last result says whether it turned DTR on
  function OnSubneg(s: Session, sb: seq<byte>, overflow: bool, modem: byte): (Session, seq<Reply>, bool) {
    if overflow || |sb| < 2 || sb[0] != OPT_COM_PORT then (s, [], false)
    else
      var cmd, arg := sb[1], sb[2..];
      match cmd
      case 0 => (s, if arg == [] then [ComPort(cmd, SIGNATURE)] else [], false)
      case 1 =>
        if |arg| < 4 then (s, [], false)
        else
          var s' := if U32Of(arg) != 0 then s.(baud := U32Of(arg)) else s;
          (s', [ComPort(cmd, BytesOf(s'.baud))], false)
      case 5 =>
        if arg == [] then (s, [], false)
        else
          var s' := if arg[0] == CONTROL_DTR_ON then s.(dtr := true)
                    else if arg[0] == CONTROL_DTR_OFF then s.(dtr := false) else s;
          (s', [ComPort(cmd, [arg[0]])], arg[0] == CONTROL_DTR_ON && !s.dtr)
      case 6 => (s, [ComPort(cmd, [0x60])], false)
      case 7 => (s, [ComPort(cmd, [modem])], false)
      case 8 => (s, [], false)
      case 9 => (s, [], false)
      case _ =>
        if arg == [] then (s, [], false)
        else if 2 <= cmd <= 4 then
          var s' := if arg[0] != 0 then WithField(s, cmd, arg[0]) else s;
          (s', [ComPort(cmd, [Field(s', cmd)])], false)
        else (s, [ComPort(cmd, [arg[0]])], false)
  }

  // What the server has done: data for the switch, replies for the client, and whether DTR was raised
  datatype Effect = Effect(data: seq<byte>, replies: seq<Reply>, dtrRaised: bool)

  const NO_EFFECT := Effect([], [], false)

  function Both(a: Effect, b: Effect): Effect {
    Effect(a.data + b.data, a.replies + b.replies, a.dtrRaised || b.dtrRaised)
  }

  function Handle(s: Session, t: Token, modem: byte): (Session, Effect) {
    match t
    case Data(b) => (s, Effect([b], [], false))
    case Command(verb, opt) => var (s', replies) := OnVerb(s, verb, opt); (s', Effect([], replies, false))
    case Subnegotiation(body, overflow) =>
      var (s', replies, raised) := OnSubneg(s, body, overflow, modem);
      (s', Effect([], replies, raised))
  }

  function HandleAll(s: Session, ts: seq<Token>, modem: byte): (Session, Effect) {
    if ts == [] then (s, NO_EFFECT)
    else
      var (s1, e1) := HandleAll(s, ts[..|ts| - 1], modem);
      var (s2, e2) := Handle(s1, ts[|ts| - 1], modem);
      (s2, Both(e1, e2))
  }

  // ----- The bytes of a reply -----

  // 0xFF doubled
  function Escape(s: seq<byte>): seq<byte> {
    if s == [] then []
    else Escape(s[..|s| - 1]) + (if s[|s| - 1] == IAC then [IAC, IAC] else [s[|s| - 1]])
  }

  function Render(r: Reply): seq<byte> {
    match r
    case Announce(verb, opt) => [IAC, verb, opt]
    case ComPort(cmd, payload) => [IAC, SB, OPT_COM_PORT, (cmd as int + 100) % 256] + Escape(payload) + [IAC, SE]
  }

  function RenderAll(rs: seq<Reply>): seq<byte> {
    if rs == [] then [] else RenderAll(rs[..|rs| - 1]) + Render(rs[|rs| - 1])
  }
}
