// Option negotiation and the replies of one connection, on values (src/core/rfc2217_proto.c).
module Negotiation {
  import opened Bytes
  import opened Telnet
  import opened TelnetTheorems

  // ----- What the server has announced about an option -----

  // Its WILL (true) and WONT (false) for an option, in order
  function WeSaid(rs: seq<Reply>, opt: byte): seq<bool> {
    if rs == [] then []
    else
      var before, r := WeSaid(rs[..|rs| - 1], opt), rs[|rs| - 1];
      if r.Announce? && r.opt == opt && r.verb == WILL then before + [true]
      else if r.Announce? && r.opt == opt && r.verb == WONT then before + [false]
      else before
  }

  // Its DO (true) and DONT (false)
  function TheySaid(rs: seq<Reply>, opt: byte): seq<bool> {
    if rs == [] then []
    else
      var before, r := TheySaid(rs[..|rs| - 1], opt), rs[|rs| - 1];
      if r.Announce? && r.opt == opt && r.verb == DO then before + [true]
      else if r.Announce? && r.opt == opt && r.verb == DONT then before + [false]
      else before
  }

  // The announcements alternate, and the last one says how the option stands
  predicate InStep(said: seq<bool>, stands: bool) {
    && said != [] && said[|said| - 1] == stands
    && forall i :: 0 < i < |said| ==> said[i] != said[i - 1]
  }

  predicate OptionInStep(rs: seq<Reply>, s: Session, opt: byte) {
    InStep(WeSaid(rs, opt), opt in s.we) && InStep(TheySaid(rs, opt), opt in s.they)
  }

  // For both options the server takes part in; no other option is ever on
  predicate AllInStep(rs: seq<Reply>, s: Session) {
    && OptionInStep(rs, s, OPT_BINARY) && OptionInStep(rs, s, OPT_SGA)
    && s.we <= {OPT_BINARY, OPT_SGA} && s.they <= {OPT_BINARY, OPT_SGA}
  }

  lemma SaidMore(rs: seq<Reply>, r: Reply, opt: byte)
    ensures WeSaid(rs + [r], opt) == WeSaid(rs, opt) +
              (if r.Announce? && r.opt == opt && r.verb == WILL then [true]
               else if r.Announce? && r.opt == opt && r.verb == WONT then [false] else [])
    ensures TheySaid(rs + [r], opt) == TheySaid(rs, opt) +
              (if r.Announce? && r.opt == opt && r.verb == DO then [true]
               else if r.Announce? && r.opt == opt && r.verb == DONT then [false] else [])
  {
  }

  lemma InStepMore(said: seq<bool>, stands: bool)
    requires InStep(said, stands)
    ensures InStep(said + [!stands], !stands) && said + [] == said
  {
  }

  lemma OptionKept(rs: seq<Reply>, s: Session, opt: byte, verb: byte, asked: byte)
    requires AllInStep(rs, s) && WeAccept(opt)
    ensures var (s', more) := OnVerb(s, verb, asked);
            OptionInStep(rs + more, s', opt) && s'.we <= {OPT_BINARY, OPT_SGA} && s'.they <= {OPT_BINARY, OPT_SGA}
  {
    hide WeSaid;
    hide TheySaid;
    hide InStep;
    var (s', more) := OnVerb(s, verb, asked);
    assert OptionInStep(rs, s, opt);
    InStepMore(WeSaid(rs, opt), opt in s.we);
    InStepMore(TheySaid(rs, opt), opt in s.they);
    if more == [] {
      assert rs + more == rs;
    } else {
      assert more == [more[0]];
      SaidMore(rs, more[0], opt);
    }
  }

  lemma ComPortKept(rs: seq<Reply>, s: Session, s': Session, opt: byte, more: seq<Reply>)
    requires OptionInStep(rs, s, opt) && s'.we == s.we && s'.they == s.they
    requires |more| <= 1 && forall i :: 0 <= i < |more| ==> more[i].ComPort?
    ensures OptionInStep(rs + more, s', opt)
  {
    hide WeSaid;
    hide TheySaid;
    if more == [] {
      assert rs + more == rs;
    } else {
      assert more == [more[0]];
      SaidMore(rs, more[0], opt);
    }
  }

  lemma SubnegReplies(s: Session, sb: seq<byte>, overflow: bool, modem: byte)
    ensures var (s', more, raised) := OnSubneg(s, sb, overflow, modem);
            && s'.we == s.we && s'.they == s.they
            && |more| <= 1 && (forall i :: 0 <= i < |more| ==> more[i].ComPort? && more[i].cmd == sb[1])
            && (more != [] ==> |sb| >= 2 && sb[0] == OPT_COM_PORT && !overflow)
            && (raised <==> !s.dtr && s'.dtr)
  {
  }

  lemma HandleKeeps(rs: seq<Reply>, s: Session, t: Token, modem: byte)
    requires AllInStep(rs, s)
    ensures var (s', e) := Handle(s, t, modem); AllInStep(rs + e.replies, s')
  {
    hide OnVerb;
    hide OnSubneg;
    hide OptionInStep;
    match t {
      case Data(_) => assert rs + [] == rs;
      case Command(verb, opt) =>
        OptionKept(rs, s, OPT_BINARY, verb, opt);
        OptionKept(rs, s, OPT_SGA, verb, opt);
      case Subnegotiation(body, overflow) =>
        SubnegReplies(s, body, overflow, modem);
        var (s', more, _) := OnSubneg(s, body, overflow, modem);
        ComPortKept(rs, s, s', OPT_BINARY, more);
        ComPortKept(rs, s, s', OPT_SGA, more);
    }
  }

  lemma GreetingInStep(s: Session)
    requires s.we == {} && s.they == {}
    ensures AllInStep(GREETING, Greeted(s))
  {
    SaidOfGreeting(OPT_BINARY);
    SaidOfGreeting(OPT_SGA);
  }

  lemma SaidOfGreeting(opt: byte)
    requires WeAccept(opt)
    ensures WeSaid(GREETING, opt) == [true] && TheySaid(GREETING, opt) == [true]
  {
    assert GREETING == [] + [Announce(WILL, OPT_BINARY)] + [Announce(DO, OPT_BINARY)] + [Announce(WILL, OPT_SGA)]
                       + [Announce(DO, OPT_SGA)] + [Announce(DO, OPT_COM_PORT)];
    var g0: seq<Reply> := [];
    var g1 := g0 + [Announce(WILL, OPT_BINARY)];
    var g2 := g1 + [Announce(DO, OPT_BINARY)];
    var g3 := g2 + [Announce(WILL, OPT_SGA)];
    var g4 := g3 + [Announce(DO, OPT_SGA)];
    SaidMore(g0, Announce(WILL, OPT_BINARY), opt);
    SaidMore(g1, Announce(DO, OPT_BINARY), opt);
    SaidMore(g2, Announce(WILL, OPT_SGA), opt);
    SaidMore(g3, Announce(DO, OPT_SGA), opt);
    SaidMore(g4, Announce(DO, OPT_COM_PORT), opt);
  }

  lemma {:induction false} TokensInStep(rs: seq<Reply>, s: Session, ts: seq<Token>, modem: byte)
    requires AllInStep(rs, s)
    ensures var (s', e) := HandleAll(s, ts, modem); AllInStep(rs + e.replies, s')
  {
    hide Handle;
    hide AllInStep;
    if ts == [] {
      assert rs + [] == rs;
    } else {
      var n := |ts| - 1;
      TokensInStep(rs, s, ts[..n], modem);
      var (s1, e1) := HandleAll(s, ts[..n], modem);
      HandleKeeps(rs + e1.replies, s1, ts[n], modem);
      var more := Handle(s1, ts[n], modem).1.replies;
      assert rs + e1.replies + more == rs + (e1.replies + more);
    }
  }

  // Asking again for what was just asked is not answered, except for options that are always refused and
  // for COM-PORT, which is always confirmed.
  lemma RepeatIsSilent(s: Session, verb: byte, opt: byte)
    requires WILL <= verb <= DONT
    ensures OnVerb(OnVerb(s, verb, opt).0, verb, opt).1 == []
            <==> !((verb == WILL && (opt == OPT_COM_PORT || !TheyAccept(opt))) || (verb == DO && !WeAccept(opt)))
  {
    var b := BitOf(opt);
    assert (s.they - b) * b == {} && (s.we - b) * b == {};
    assert opt < 32 ==> opt in (s.they + b) * b && opt in (s.we + b) * b;
  }

  // ----- The reply stream -----

  function ReplyItems(rs: seq<Reply>): seq<Item> {
    if rs == [] then [] else ReplyItems(rs[..|rs| - 1]) + [ReplyItem(rs[|rs| - 1])]
  }

  predicate WellFormed(r: Reply) { Sayable(ReplyItem(r)) && !(r.ComPort? && r.cmd == 155) }

  predicate AllWellFormed(rs: seq<Reply>) { forall i :: 0 <= i < |rs| ==> WellFormed(rs[i]) }

  lemma {:induction false} ReplyItemsAt(rs: seq<Reply>)
    ensures |ReplyItems(rs)| == |rs| && forall i :: 0 <= i < |rs| ==> ReplyItems(rs)[i] == ReplyItem(rs[i])
  {
    hide ReplyItem;
    if rs != [] {
      ReplyItemsAt(rs[..|rs| - 1]);
    }
  }

  lemma {:induction false} RenderAllIsPrint(rs: seq<Reply>)
    requires AllWellFormed(rs)
    ensures RenderAll(rs) == Print(ReplyItems(rs))
  {
    hide Render;
    hide ReplyItem;
    hide PrintItem;
    hide Sayable;
    if rs != [] {
      var n := |rs| - 1;
      RenderAllIsPrint(rs[..n]);
      assert WellFormed(rs[n]);
      RenderIsPrint(rs[n]);
      ReplyItemsAt(rs);
      ReplyItemsAt(rs[..n]);
      assert ReplyItems(rs)[..n] == ReplyItems(rs[..n]);
    }
  }

  // A subnegotiation that the server answers with the reply number 255
  predicate Vendor(t: Token) {
    t.Subnegotiation? && !t.overflow && |t.body| >= 3 && t.body[0] == OPT_COM_PORT && t.body[1] == 155
  }

  predicate NoVendor(ts: seq<Token>) { forall i :: 0 <= i < |ts| ==> !Vendor(ts[i]) }

  predicate IsVerb(t: Token) { t.Command? ==> WILL <= t.verb <= DONT }

  predicate AllVerbs(ts: seq<Token>) { forall i :: 0 <= i < |ts| ==> IsVerb(ts[i]) }

  // A reply is well-formed, or it is the one to the vendor command; and it is short
  predicate Known(r: Reply) {
    && (WellFormed(r) || (r.ComPort? && r.cmd == 155))
    && (r.ComPort? ==> |r.payload| <= 10 && |Escape(r.payload)| <= 10)
  }

  predicate AllKnown(rs: seq<Reply>) { forall i :: 0 <= i < |rs| ==> Known(rs[i]) }

  lemma AnswerIsShort(s: Session, t: Token, modem: byte)
    ensures var rs := Handle(s, t, modem).1.replies;
            && |rs| <= 1
            && forall i :: 0 <= i < |rs| ==>
                 rs[i].ComPort? ==> |rs[i].payload| <= 10 && |Escape(rs[i].payload)| <= 10
  {
    hide Escape;
    var rs := Handle(s, t, modem).1.replies;
    EscapeAtMostDoubles(SIGNATURE);
    if rs != [] && rs[0].ComPort? {
      EscapeAtMostDoubles(rs[0].payload);
      ShortPayload(s, t, modem);
    }
  }

  lemma ShortPayload(s: Session, t: Token, modem: byte)
    ensures var rs := Handle(s, t, modem).1.replies;
            forall i :: 0 <= i < |rs| ==> rs[i].ComPort? ==> rs[i].payload == SIGNATURE || |rs[i].payload| <= 4
  {
  }

  lemma AnswerIsKnown(s: Session, t: Token, modem: byte)
    requires IsVerb(t)
    ensures var rs := Handle(s, t, modem).1.replies; AllKnown(rs) && (AllWellFormed(rs) <==> !Vendor(t))
  {
    AnswerIsShort(s, t, modem);
    hide Escape;
    if Vendor(t) {
      var rs := Handle(s, t, modem).1.replies;
      assert rs == [ComPort(155, [t.body[2..][0]])];
      assert !WellFormed(rs[0]);
    }
  }

  lemma {:induction false} AnswersAreKnown(s: Session, ts: seq<Token>, modem: byte)
    requires AllVerbs(ts)
    ensures var rs := HandleAll(s, ts, modem).1.replies; AllKnown(rs) && (AllWellFormed(rs) <==> NoVendor(ts))
  {
    hide Handle;
    hide WellFormed;
    hide Known;
    hide Vendor;
    hide IsVerb;
    if ts != [] {
      var n := |ts| - 1;
      AnswersAreKnown(s, ts[..n], modem);
      var (s1, e1) := HandleAll(s, ts[..n], modem);
      AnswerIsKnown(s1, ts[n], modem);
      JoinedReplies(e1.replies, Handle(s1, ts[n], modem).1.replies);
      assert NoVendor(ts) <==> NoVendor(ts[..n]) && !Vendor(ts[n]);
    }
  }

  lemma JoinedReplies(a: seq<Reply>, b: seq<Reply>)
    ensures AllWellFormed(a + b) <==> AllWellFormed(a) && AllWellFormed(b)
    ensures AllKnown(a + b) <==> AllKnown(a) && AllKnown(b)
  {
    hide WellFormed;
    hide Known;
    assert forall i :: 0 <= i < |a| ==> (a + b)[i] == a[i];
    assert forall i :: 0 <= i < |b| ==> (a + b)[|a| + i] == b[i];
  }

  lemma {:induction false} VerbsAreVerbs(f: Frame, input: seq<byte>)
    requires f.st.InVerb? ==> WILL <= f.verb <= DONT
    ensures var (f', ts) := FrameRun(f, input); (f'.st.InVerb? ==> WILL <= f'.verb <= DONT) && AllVerbs(ts)
  {
    if input != [] {
      VerbsAreVerbs(f, input[..|input| - 1]);
    }
  }

  // What follows a fourth body byte is not the end of a shorter body.
  lemma {:induction false} LongBody(f: Frame, input: seq<byte>)
    requires (f.st.InSb? || f.st.InSbIac?) && |f.sb| >= 4
    ensures var (f', ts) := FrameRun(f, input);
            if ts == [] then (f'.st.InSb? || f'.st.InSbIac?) && |f'.sb| >= 4
            else ts[0].Subnegotiation? && |ts[0].body| >= 4
  {
    if input != [] {
      LongBody(f, input[..|input| - 1]);
    }
  }

  // The reply to the vendor command, whatever follows it, is read as something else.
  lemma VendorMisread(f: Frame, b: byte, rest: seq<byte>)
    requires f.st.InData?
    ensures var ts := FrameRun(f, Render(ComPort(155, [b])) + rest).1;
            ts == [] || ts[0] != Subnegotiation([OPT_COM_PORT, 255, b], false)
  {
    hide FrameRun;
    hide Escape;
    var half := f.(sb := [OPT_COM_PORT], overflow := false, st := InSbIac);
    var head: seq<byte> := [IAC, SB, OPT_COM_PORT, 255];
    var tail: seq<byte> := (if b == IAC then [IAC, IAC] else [b]) + [IAC, SE];
    EscapeOne(b);
    VendorHead(f);
    VendorTail(half, b);
    assert Render(ComPort(155, [b])) + rest == head + tail + rest;
    FrameRunConcat(f, head, tail);
    FrameRunConcat(f, head + tail, rest);
    LongOrShort(FrameRun(half, tail).0, rest);
  }

  lemma VendorHead(f: Frame)
    requires f.st.InData?
    ensures FrameRun(f, [IAC, SB, OPT_COM_PORT, 255]) ==
            (f.(sb := [OPT_COM_PORT], overflow := false, st := InSbIac), [])
  {
    hide FrameRun;
    Four(f, IAC, SB, OPT_COM_PORT, 255);
    var none: seq<Token> := [];
    assert none + none + none + none == none;
    assert [] + [OPT_COM_PORT] == [OPT_COM_PORT];
  }

  lemma VendorTail(half: Frame, b: byte)
    requires half.st.InSbIac? && half.sb == [OPT_COM_PORT] && !half.overflow
    ensures var (f', ts) := FrameRun(half, (if b == IAC then [IAC, IAC] else [b]) + [IAC, SE]);
            if b == IAC then ts == [] && f'.st.InSb? && |f'.sb| == 4 else ts == [Subnegotiation([OPT_COM_PORT], false)]
  {
    hide FrameRun;
    var t := Subnegotiation([OPT_COM_PORT], false);
    var none: seq<Token> := [];
    if b == IAC {
      Four(half, IAC, IAC, IAC, SE);
      assert [IAC, IAC] + [IAC, SE] == [IAC, IAC, IAC, SE];
      assert none + none + none + none == none;
    } else {
      Three(half, b, IAC, SE);
      assert [b] + [IAC, SE] == [b, IAC, SE];
      assert [t] + none + none == [t] == none + none + [t];
    }
  }

  lemma LongOrShort(f: Frame, rest: seq<byte>)
    ensures f.st.InSb? && |f.sb| >= 4 ==>
              var ts := FrameRun(f, rest).1; ts == [] || (ts[0].Subnegotiation? && |ts[0].body| >= 4)
  {
    if f.st.InSb? && |f.sb| >= 4 {
      LongBody(f, rest);
    }
  }

  lemma EscapeOne(b: byte)
    ensures Escape([b]) == if b == IAC then [IAC, IAC] else [b]
  {
    assert [b][..0] == [];
    assert Escape([]) == [];
  }

  lemma Four(f: Frame, a: byte, b: byte, c: byte, d: byte)
    ensures var (f1, t1) := FrameStep(f, a);
            var (f2, t2) := FrameStep(f1, b);
            var (f3, t3) := FrameStep(f2, c);
            var (f4, t4) := FrameStep(f3, d);
            FrameRun(f, [a, b, c, d]) == (f4, t1 + t2 + t3 + t4)
  {
    hide FrameStep;
    Three(f, a, b, c);
    FrameRunLast(f, [a, b, c], d);
    assert [a, b, c] + [d] == [a, b, c, d];
  }

  lemma AllSayable(rs: seq<Reply>)
    requires AllWellFormed(rs)
    ensures forall i :: 0 <= i < |ReplyItems(rs)| ==> Sayable(ReplyItems(rs)[i])
  {
    hide Sayable;
    ReplyItemsAt(rs);
    forall i | 0 <= i < |rs|
      ensures Sayable(ReplyItems(rs)[i])
    {
      assert WellFormed(rs[i]);
    }
  }

  lemma GreetingWellFormed()
    ensures AllWellFormed(GREETING) && AllKnown(GREETING)
  {
  }

  // ----- How long replies are -----

  // A run of replies is never longer than what the printer makes of it, and as long if and only if it is the same.
  lemma {:induction false} RenderedLength(rs: seq<Reply>)
    requires AllKnown(rs)
    ensures |RenderAll(rs)| <= |Print(ReplyItems(rs))|
    ensures |RenderAll(rs)| == |Print(ReplyItems(rs))| <==> AllWellFormed(rs)
  {
    hide Render;
    hide ReplyItem;
    hide PrintItem;
    hide WellFormed;
    hide Known;
    if rs != [] {
      var n := |rs| - 1;
      RenderedLength(rs[..n]);
      assert Known(rs[n]);
      OneLength(rs[n]);
      ReplyItemsAt(rs);
      ReplyItemsAt(rs[..n]);
      assert ReplyItems(rs)[..n] == ReplyItems(rs[..n]);
      assert AllWellFormed(rs) <==> AllWellFormed(rs[..n]) && WellFormed(rs[n]);
    }
  }

  lemma OneLength(r: Reply)
    requires Known(r)
    ensures |Render(r)| == |PrintItem(ReplyItem(r))| - if WellFormed(r) then 0 else 1
  {
    hide Escape;
    if r.ComPort? {
      var num: byte := (r.cmd as int + 100) % 256;
      EscapePair(OPT_COM_PORT, num);
      EscapeConcat([OPT_COM_PORT, num], r.payload);
    }
  }

  // The most bytes of replies that a stream of n bytes can have: 16 for every 6, or 3 for 3 that are left over
  function MostReplied(n: nat): nat { 16 * (n / 6) + if n % 6 >= 3 then 3 else 0 }

  lemma MostGrows(a: nat, b: nat)
    requires b == 3 || b >= 6
    ensures MostReplied(a) + (if b == 3 then 3 else 16) <= MostReplied(a + b)
  {
    MostMonotone(a + 6, a + b);
  }

  lemma NoReplies()
    ensures MostReplied(0) == 0
  {
  }

  lemma MostMonotone(a: nat, b: nat)
    ensures a <= b ==> MostReplied(a) <= MostReplied(b)
  {
  }

  // The reply to one token is no longer than its share.
  lemma ReplyLength(s: Session, t: Token, modem: byte)
    ensures var rs := Handle(s, t, modem).1.replies;
            |rs| <= 1 && (rs != [] ==> |Render(rs[0])| <= (if Weight(t, 2) == 3 then 3 else 16)
                                       && (Weight(t, 2) == 3 || Weight(t, 2) >= 6))
  {
    hide Escape;
    AnswerIsShort(s, t, modem);
    if t.Subnegotiation? {
      EscapeAtMostDoubles(t.body);
    }
  }

  lemma {:induction false} RepliesLength(s: Session, ts: seq<Token>, modem: byte)
    ensures |RenderAll(HandleAll(s, ts, modem).1.replies)| <= MostReplied(Weights(ts, 2))
  {
    hide Handle;
    hide Render;
    hide Weight;
    hide MostReplied;
    if ts == [] {
      NoReplies();
    } else {
      var n := |ts| - 1;
      RepliesLength(s, ts[..n], modem);
      var (s1, e1) := HandleAll(s, ts[..n], modem);
      var rs, w := Handle(s1, ts[n], modem).1.replies, Weights(ts[..n], 2);
      ReplyLength(s1, ts[n], modem);
      if rs == [] {
        assert e1.replies + rs == e1.replies;
        MostMonotone(w, w + Weight(ts[n], 2));
      } else {
        assert (e1.replies + rs)[..|e1.replies|] == e1.replies;
        MostGrows(w, Weight(ts[n], 2));
      }
    }
  }

  // What a read is answered with is never longer than what the bytes of the read, and up to 5 bytes of an item begun
  // before, can have.
  lemma AnswersBounded(f: Frame, s: Session, input: seq<byte>, modem: byte)
    ensures |RenderAll(Serve(f, s, input, modem).2.replies)| <= MostReplied(Pending(f, 2) + |input|)
    ensures Pending(f, 2) <= 5
  {
    hide FrameRun;
    hide HandleAll;
    hide RenderAll;
    hide MostReplied;
    hide Weights;
    var (f', ts) := FrameRun(f, input);
    NothingShorter(f, input, 2);
    RepliesLength(s, ts, modem);
    MostMonotone(Weights(ts, 2), Pending(f, 2) + |input|);
  }

  // A stream that has it answered: IAC SB 44 155 1 IAC SE
  const VENDOR_REQUEST: seq<byte> := [IAC, SB, OPT_COM_PORT, 155, 1, IAC, SE]

  lemma VendorAnswered(modem: byte)
    ensures !NoVendor(FrameRun(NEW_FRAME, VENDOR_REQUEST).1)
    ensures Serve(NEW_FRAME, Greeted(NEW_SESSION), VENDOR_REQUEST, modem).2.replies == [ComPort(155, [1])]
  {
    hide FrameRun;
    hide Escape;
    hide HandleAll;
    var body: seq<byte> := [OPT_COM_PORT, 155, 1];
    EscapePlain();
    assert VENDOR_REQUEST == PrintItem(Sub(body));
    SubParses(NEW_FRAME, body);
    var t := Subnegotiation(body, false);
    assert body[..Min(|body|, SB_MAX)] == body;
    assert FrameRun(NEW_FRAME, VENDOR_REQUEST).1 == [t];
    assert Vendor([t][0]);
    var s := Greeted(NEW_SESSION);
    HandleNone(s, modem);
    HandleLast(s, [], t, modem);
    assert [] + [t] == [t];
    assert body[2..] == [1];
  }

  lemma EscapePlain()
    ensures Escape([OPT_COM_PORT, 155, 1]) == [OPT_COM_PORT, 155, 1]
  {
    var body: seq<byte> := [OPT_COM_PORT, 155, 1];
    assert body[..2] == [OPT_COM_PORT, 155] && body[..2][..1] == [OPT_COM_PORT] && body[..2][..1][..0] == [];
    EscapePair(OPT_COM_PORT, 155);
  }
}
