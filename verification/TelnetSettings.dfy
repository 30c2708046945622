// What the server remembers is what the client last asked for (src/core/rfc2217_proto.c).
module TelnetSettings {
  import opened Bytes
  import opened Telnet
  import opened TelnetTheorems

  // The last of two opposite verbs that the client sent about an option, or what held before
  function LastVerb(ts: seq<Token>, opt: byte, on: byte, off: byte, start: bool): bool {
    if ts == [] then start
    else
      var t := ts[|ts| - 1];
      if t == Command(on, opt) then true
      else if t == Command(off, opt) then false
      else LastVerb(ts[..|ts| - 1], opt, on, off, start)
  }

  // A COM-PORT command with at least n bytes behind it that came whole
  predicate Requests(t: Token, cmd: byte, n: nat) {
    t.Subnegotiation? && !t.overflow && |t.body| >= 2 + n && t.body[0] == 44 && t.body[1] == cmd
  }

  // The last setting other than 0, which only asks
  function LastSetting(ts: seq<Token>, cmd: byte, start: byte): byte {
    if ts == [] then start
    else
      var t := ts[|ts| - 1];
      if Requests(t, cmd, 1) && t.body[2] != 0 then t.body[2] else LastSetting(ts[..|ts| - 1], cmd, start)
  }

  function LastBaud(ts: seq<Token>, start: nat): nat {
    if ts == [] then start
    else
      var t := ts[|ts| - 1];
      if Requests(t, 1, 4) && U32Of(t.body[2..]) != 0 then U32Of(t.body[2..]) else LastBaud(ts[..|ts| - 1], start)
  }

  // SET-CONTROL 8 is DTR on, 9 is DTR off
  function LastDtr(ts: seq<Token>, start: bool): bool {
    if ts == [] then start
    else
      var t := ts[|ts| - 1];
      if Requests(t, 5, 1) && t.body[2] == 8 then true
      else if Requests(t, 5, 1) && t.body[2] == 9 then false
      else LastDtr(ts[..|ts| - 1], start)
  }

  // Of an option, by the codes of RFC 854: WILL (251) and WONT (252) are about the client's side, DO (253) and DONT
  // (254) about the server's
  predicate OptionAsAsked(s: Session, ts: seq<Token>, s': Session, opt: byte) {
    && (opt in s'.they <==> LastVerb(ts, opt, 251, 252, opt in s.they))
    && (opt in s'.we <==> LastVerb(ts, opt, 253, 254, opt in s.we))
  }

  predicate LineAsAsked(s: Session, ts: seq<Token>, s': Session) {
    && s'.baud == LastBaud(ts, s.baud) && s'.datasize == LastSetting(ts, 2, s.datasize)
    && s'.parity == LastSetting(ts, 3, s.parity) && s'.stopsize == LastSetting(ts, 4, s.stopsize)
    && s'.dtr == LastDtr(ts, s.dtr)
  }

  lemma OptionStep(s: Session, ts: seq<Token>, s1: Session, t: Token, modem: byte, opt: byte)
    requires OptionAsAsked(s, ts, s1, opt) && (opt == OPT_BINARY || opt == OPT_SGA)
    ensures OptionAsAsked(s, ts + [t], Handle(s1, t, modem).0, opt)
  {
    assert (ts + [t])[..|ts|] == ts;
  }

  lemma LineStep(s: Session, ts: seq<Token>, s1: Session, t: Token, modem: byte)
    requires LineAsAsked(s, ts, s1)
    ensures LineAsAsked(s, ts + [t], Handle(s1, t, modem).0)
  {
    assert (ts + [t])[..|ts|] == ts;
  }

  // Both options and the line are as last asked
  predicate AsAsked(s: Session, ts: seq<Token>, s': Session) {
    OptionAsAsked(s, ts, s', OPT_BINARY) && OptionAsAsked(s, ts, s', OPT_SGA) && LineAsAsked(s, ts, s')
  }

  // After any stream both options stand as the client last asked, and the line is set as it last asked.
  lemma {:induction false} SessionIsLastAsked(s: Session, ts: seq<Token>, modem: byte)
    ensures AsAsked(s, ts, HandleAll(s, ts, modem).0)
  {
    hide Handle;
    if ts == [] {
      NothingAsked(s);
    } else {
      var n := |ts| - 1;
      SessionIsLastAsked(s, ts[..n], modem);
      var s1 := HandleAll(s, ts[..n], modem).0;
      OptionStep(s, ts[..n], s1, ts[n], modem, OPT_BINARY);
      OptionStep(s, ts[..n], s1, ts[n], modem, OPT_SGA);
      LineStep(s, ts[..n], s1, ts[n], modem);
      assert ts[..n] + [ts[n]] == ts;
    }
  }

  lemma NothingAsked(s: Session)
    ensures AsAsked(s, [], s)
  {
  }

  lemma {:induction false} LastVerbJoin(a: seq<Token>, b: seq<Token>, opt: byte, on: byte, off: byte, start: bool)
    ensures LastVerb(a + b, opt, on, off, start) == LastVerb(b, opt, on, off, LastVerb(a, opt, on, off, start))
  {
    if b == [] {
      assert a + b == a;
    } else {
      LastVerbJoin(a, b[..|b| - 1], opt, on, off, start);
      assert (a + b)[..|a + b| - 1] == a + b[..|b| - 1];
    }
  }

  lemma {:induction false} LastSettingJoin(a: seq<Token>, b: seq<Token>, cmd: byte, start: byte)
    ensures LastSetting(a + b, cmd, start) == LastSetting(b, cmd, LastSetting(a, cmd, start))
  {
    if b == [] {
      assert a + b == a;
    } else {
      LastSettingJoin(a, b[..|b| - 1], cmd, start);
      assert (a + b)[..|a + b| - 1] == a + b[..|b| - 1];
    }
  }

  lemma {:induction false} LastLineJoin(a: seq<Token>, b: seq<Token>, baud: nat, dtr: bool)
    ensures LastBaud(a + b, baud) == LastBaud(b, LastBaud(a, baud))
    ensures LastDtr(a + b, dtr) == LastDtr(b, LastDtr(a, dtr))
  {
    if b == [] {
      assert a + b == a;
    } else {
      LastLineJoin(a, b[..|b| - 1], baud, dtr);
      assert (a + b)[..|a + b| - 1] == a + b[..|b| - 1];
    }
  }

  lemma AskedJoin(s: Session, a: seq<Token>, s1: Session, b: seq<Token>, s2: Session)
    requires AsAsked(s, a, s1) && AsAsked(s1, b, s2)
    ensures AsAsked(s, a + b, s2)
  {
    forall opt: byte
      ensures OptionAsAsked(s, a, s1, opt) && OptionAsAsked(s1, b, s2, opt) ==> OptionAsAsked(s, a + b, s2, opt)
    {
      LastVerbJoin(a, b, opt, 251, 252, opt in s.they);
      LastVerbJoin(a, b, opt, 253, 254, opt in s.we);
    }
    LastSettingJoin(a, b, 2, s.datasize);
    LastSettingJoin(a, b, 3, s.parity);
    LastSettingJoin(a, b, 4, s.stopsize);
    LastLineJoin(a, b, s.baud, s.dtr);
  }

  // ----- Every answer -----

  // The server answers WILL or WONT about its own side and DO or DONT about the client's, agrees to no option but
  // BINARY and SGA, and to COM-PORT for the client
  predicate Agreeable(r: Reply) {
    match r
    case Announce(verb, opt) =>
      && (verb == 251 ==> opt == 0 || opt == 3)
      && (verb == 253 ==> opt == 0 || opt == 3 || opt == 44)
      && 251 <= verb <= 254
    case ComPort(_, _) => true
  }

  predicate AllAgreeable(rs: seq<Reply>) { forall i :: 0 <= i < |rs| ==> Agreeable(rs[i]) }

  lemma {:induction false} NoOtherOption(s: Session, ts: seq<Token>, modem: byte)
    ensures AllAgreeable(HandleAll(s, ts, modem).1.replies)
  {
    hide Handle;
    hide Agreeable;
    if ts != [] {
      var n := |ts| - 1;
      NoOtherOption(s, ts[..n], modem);
      OneAgreeable(HandleAll(s, ts[..n], modem).0, ts[n], modem);
    }
  }

  lemma OneAgreeable(s: Session, t: Token, modem: byte)
    ensures AllAgreeable(Handle(s, t, modem).1.replies)
  {
  }

  // Every request for an option the server does not know is refused, and so is COM-PORT for the server's own side; the
  // client's offer of COM-PORT is always confirmed.
  lemma RefusedOrConfirmed(s: Session, opt: byte)
    requires opt != 0 && opt != 3
    ensures OnVerb(s, 251, opt).1 == [Announce(if opt == 44 then 253 else 254, opt)]
    ensures OnVerb(s, 253, opt).1 == [Announce(252, opt)]
  {
  }

  // What a COM-PORT request is answered with: the value that holds afterwards, for the four line settings; the
  // signature, the line state or the modem state; nothing for the two flow control commands; and for anything else its
  // own first byte.
  lemma AnswersAreTrue(s: Session, cmd: byte, arg: seq<byte>, modem: byte)
    requires |arg| + 2 <= SB_MAX
    ensures var (s', e) := Handle(s, Subnegotiation([44, cmd] + arg, false), modem);
            e.replies ==
            if cmd == 0 then if arg == [] then [ComPort(0, [83, 86, 83, 32, 66, 114, 105, 100, 103, 101])] else []
            else if cmd == 1 then if |arg| >= 4 then [ComPort(1, BytesOf(s'.baud))] else []
            else if cmd == 6 then [ComPort(6, [96])]
            else if cmd == 7 then [ComPort(7, [modem])]
            else if cmd == 8 || cmd == 9 || arg == [] then []
            else if cmd == 2 then [ComPort(2, [s'.datasize])]
            else if cmd == 3 then [ComPort(3, [s'.parity])]
            else if cmd == 4 then [ComPort(4, [s'.stopsize])]
            else [ComPort(cmd, [arg[0]])]
  {
    assert ([44, cmd] + arg)[2..] == arg;
  }
}
