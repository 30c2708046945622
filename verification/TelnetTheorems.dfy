// What the Telnet parser promises: it undoes a Telnet printer, chunks do not matter, and the server's
// announcements keep step with what it remembers.
module TelnetTheorems {
  import opened Bytes
  import opened Telnet

  // ----- Chunks -----

  lemma FrameRunLast(f: Frame, s: seq<byte>, b: byte)
    ensures var (f1, t1) := FrameRun(f, s);
            var (f2, t2) := FrameStep(f1, b);
            FrameRun(f, s + [b]) == (f2, t1 + t2)
  {
  }

  lemma FrameRunNone(f: Frame)
    ensures FrameRun(f, []) == (f, [])
  {
  }

  lemma {:induction false} FrameRunConcat(f: Frame, s: seq<byte>, t: seq<byte>)
    ensures var (f1, t1) := FrameRun(f, s);
            var (f2, t2) := FrameRun(f1, t);
            FrameRun(f, s + t) == (f2, t1 + t2)
  {
    hide FrameStep;
    hide FrameRun;
    var (f1, t1) := FrameRun(f, s);
    if t == [] {
      FrameRunNone(f1);
      assert s + t == s && t1 + [] == t1;
    } else {
      var n := |t| - 1;
      FrameRunConcat(f, s, t[..n]);
      FrameRunLast(f, s + t[..n], t[n]);
      FrameRunLast(f1, t[..n], t[n]);
      assert s + t == s + t[..n] + [t[n]] && t == t[..n] + [t[n]];
      var (f2, t2) := FrameRun(f1, t[..n]);
      assert t1 + t2 + FrameStep(f2, t[n]).1 == t1 + (t2 + FrameStep(f2, t[n]).1);
    }
  }

  lemma HandleLast(s: Session, ts: seq<Token>, t: Token, modem: byte)
    ensures var (s1, e1) := HandleAll(s, ts, modem);
            var (s2, e2) := Handle(s1, t, modem);
            HandleAll(s, ts + [t], modem) == (s2, Both(e1, e2))
  {
  }

  lemma HandleNone(s: Session, modem: byte)
    ensures HandleAll(s, [], modem) == (s, NO_EFFECT)
  {
  }

  lemma BothAssociates(a: Effect, b: Effect, c: Effect)
    ensures Both(Both(a, b), c) == Both(a, Both(b, c))
    ensures Both(a, NO_EFFECT) == a
  {
  }

  lemma {:induction false} HandleAllConcat(s: Session, a: seq<Token>, b: seq<Token>, modem: byte)
    ensures var (s1, e1) := HandleAll(s, a, modem);
            var (s2, e2) := HandleAll(s1, b, modem);
            HandleAll(s, a + b, modem) == (s2, Both(e1, e2))
  {
    hide Handle;
    hide HandleAll;
    hide Both;
    var (s1, e1) := HandleAll(s, a, modem);
    if b == [] {
      HandleNone(s1, modem);
      BothAssociates(e1, NO_EFFECT, NO_EFFECT);
      assert a + b == a;
    } else {
      var n := |b| - 1;
      HandleAllConcat(s, a, b[..n], modem);
      HandleLast(s, a + b[..n], b[n], modem);
      HandleLast(s1, b[..n], b[n], modem);
      assert a + b == a + b[..n] + [b[n]] && b == b[..n] + [b[n]];
      var (s2, e2) := HandleAll(s1, b[..n], modem);
      BothAssociates(e1, e2, Handle(s2, b[n], modem).1);
    }
  }

  // The whole server on a stream: parse, then handle
  function Serve(f: Frame, s: Session, input: seq<byte>, modem: byte): (Frame, Session, Effect) {
    var (f', tokens) := FrameRun(f, input);
    var (s', e) := HandleAll(s, tokens, modem);
    (f', s', e)
  }

  // However a stream is cut into two reads, the server ends the same and has done the same.
  lemma ServeConcat(f: Frame, s: Session, a: seq<byte>, b: seq<byte>, modem: byte)
    ensures var (f1, s1, e1) := Serve(f, s, a, modem);
            var (f2, s2, e2) := Serve(f1, s1, b, modem);
            Serve(f, s, a + b, modem) == (f2, s2, Both(e1, e2))
  {
    var (f1, t1) := FrameRun(f, a);
    FrameRunConcat(f, a, b);
    HandleAllConcat(s, t1, FrameRun(f1, b).1, modem);
  }

  function DataOf(ts: seq<Token>): seq<byte> {
    if ts == [] then []
    else DataOf(ts[..|ts| - 1]) + (if ts[|ts| - 1].Data? then [ts[|ts| - 1].b] else [])
  }

  lemma {:induction false} HandledData(s: Session, ts: seq<Token>, modem: byte)
    ensures HandleAll(s, ts, modem).1.data == DataOf(ts)
  {
    if ts != [] {
      HandledData(s, ts[..|ts| - 1], modem);
    }
  }

  lemma AtMostOne(f: Frame, b: byte)
    ensures |FrameStep(f, b).1| <= 1
  {
  }

  lemma OneToken(ts: seq<Token>, more: seq<Token>)
    requires |more| <= 1
    ensures |DataOf(ts + more)| <= |DataOf(ts)| + |more|
  {
    if more == [] {
      assert ts + more == ts;
    } else {
      assert (ts + more)[..|ts|] == ts;
    }
  }

  // No more data comes out than bytes went in, so a data buffer as large as the read loses nothing.
  lemma {:induction false} DataFits(f: Frame, input: seq<byte>)
    ensures |FrameRun(f, input).1| <= |input| && |DataOf(FrameRun(f, input).1)| <= |input|
  {
    hide FrameStep;
    if input != [] {
      var n := |input| - 1;
      DataFits(f, input[..n]);
      var (f1, t1) := FrameRun(f, input[..n]);
      AtMostOne(f1, input[n]);
      OneToken(t1, FrameStep(f1, input[n]).1);
    }
  }

  // ----- The line settings -----

  lemma FourBytes(v: nat)
    requires v < U32
    ensures U32Of(BytesOf(v)) == v
  {
    var q1 := v / 0x100;
    var q2 := q1 / 0x100;
    var q3 := q2 / 0x100;
    var b0, b1, b2 := v % 0x100, q1 % 0x100, q2 % 0x100;
    DivUnique(v, 0x1_0000, q2, 0x100 * b1 + b0);
    DivUnique(v, 0x100_0000, q3, 0x1_0000 * b2 + 0x100 * b1 + b0);
  }

  // A client that sets a rate is told that rate, and told it again when it only asks.
  lemma BaudIsKept(s: Session, v: nat, modem: byte)
    requires 0 < v < U32
    ensures var (s1, set', _) := OnSubneg(s, [OPT_COM_PORT, 1] + BytesOf(v), false, modem);
            var (s2, asked, _) := OnSubneg(s1, [OPT_COM_PORT, 1, 0, 0, 0, 0], false, modem);
            s1 == s.(baud := v) && s2 == s1 && set' == asked == [ComPort(1, BytesOf(v))]
  {
    FourBytes(v);
    assert ([OPT_COM_PORT, 1] + BytesOf(v))[2..] == BytesOf(v);
    assert [OPT_COM_PORT, 1, 0, 0, 0, 0][2..] == [0, 0, 0, 0];
  }

  // ----- The printer -----

  // What a Telnet client can say
  datatype Item = Text(bytes: seq<byte>) | Negotiate(verb: byte, opt: byte) | Sub(body: seq<byte>) | Plain(cmd: byte)

  // Verbs are the four verbs; a plain two-byte command is none of the framing ones
  predicate Sayable(i: Item) {
    match i
    case Text(_) => true
    case Negotiate(verb, _) => WILL <= verb <= DONT
    case Sub(_) => true
    case Plain(cmd) => cmd < SB
  }

  function PrintItem(i: Item): seq<byte> {
    match i
    case Text(bytes) => Escape(bytes)
    case Negotiate(verb, opt) => [IAC, verb, opt]
    case Sub(body) => [IAC, SB] + Escape(body) + [IAC, SE]
    case Plain(cmd) => [IAC, cmd]
  }

  function Print(items: seq<Item>): seq<byte> {
    if items == [] then [] else Print(items[..|items| - 1]) + PrintItem(items[|items| - 1])
  }

  function DataTokens(bytes: seq<byte>): seq<Token> {
    seq(|bytes|, i requires 0 <= i < |bytes| => Data(bytes[i]))
  }

  // What the items mean: a body longer than the buffer comes out cut and marked
  function ItemTokens(i: Item): seq<Token> {
    match i
    case Text(bytes) => DataTokens(bytes)
    case Negotiate(verb, opt) => [Command(verb, opt)]
    case Sub(body) => [Subnegotiation(body[..Min(|body|, SB_MAX)], |body| > SB_MAX)]
    case Plain(_) => []
  }

  function Meaning(items: seq<Item>): seq<Token> {
    if items == [] then [] else Meaning(items[..|items| - 1]) + ItemTokens(items[|items| - 1])
  }

  lemma One(f: Frame, a: byte)
    ensures FrameRun(f, [a]) == FrameStep(f, a)
  {
    hide FrameStep;
    FrameRunLast(f, [], a);
    assert [] + [a] == [a];
    assert [] + FrameStep(f, a).1 == FrameStep(f, a).1;
  }

  lemma Two(f: Frame, a: byte, b: byte)
    ensures var (f1, t1) := FrameStep(f, a);
            var (f2, t2) := FrameStep(f1, b);
            FrameRun(f, [a, b]) == (f2, t1 + t2)
  {
    hide FrameStep;
    One(f, a);
    FrameRunLast(f, [a], b);
  }

  lemma Three(f: Frame, a: byte, b: byte, c: byte)
    ensures var (f1, t1) := FrameStep(f, a);
            var (f2, t2) := FrameStep(f1, b);
            var (f3, t3) := FrameStep(f2, c);
            FrameRun(f, [a, b, c]) == (f3, t1 + t2 + t3)
  {
    hide FrameStep;
    Two(f, a, b);
    FrameRunLast(f, [a, b], c);
    assert [a, b] + [c] == [a, b, c];
  }

  // A byte of an escaped run: what the parser does with the one or two bytes it is printed as
  function Escaped1(b: byte): seq<byte> { if b == IAC then [IAC, IAC] else [b] }

  lemma DataByteParses(f: Frame, b: byte)
    requires f.st.InData?
    ensures FrameRun(f, Escaped1(b)) == (f, [Data(b)])
  {
    hide FrameRun;
    if b == IAC { Two(f, IAC, IAC); } else { One(f, b); }
    assert [] + [Data(b)] == [Data(b)];
  }

  lemma BodyByteParses(f: Frame, b: byte)
    requires f.st.InSb?
    ensures FrameRun(f, Escaped1(b)) == (PushSb(f, b), [])
  {
    hide FrameRun;
    if b == IAC { Two(f, IAC, IAC); } else { One(f, b); }
    var none: seq<Token> := [];
    assert none + none == none;
  }

  lemma {:induction false} TextParses(f: Frame, bytes: seq<byte>)
    requires f.st.InData?
    ensures FrameRun(f, Escape(bytes)) == (f, DataTokens(bytes))
  {
    hide FrameRun;
    hide FrameStep;
    if bytes == [] {
      FrameRunNone(f);
    } else {
      var n := |bytes| - 1;
      TextParses(f, bytes[..n]);
      DataByteParses(f, bytes[n]);
      FrameRunConcat(f, Escape(bytes[..n]), Escaped1(bytes[n]));
      assert DataTokens(bytes) == DataTokens(bytes[..n]) + [Data(bytes[n])];
    }
  }

  // A subnegotiation body as far as it fits the buffer, marked if it did not
  function Cut(f: Frame, body: seq<byte>): Frame {
    f.(sb := body[..Min(|body|, SB_MAX)], overflow := |body| > SB_MAX)
  }

  lemma CutMore(f: Frame, body: seq<byte>, n: nat)
    requires n == |body| - 1
    ensures PushSb(Cut(f, body[..n]), body[n]) == Cut(f, body)
  {
  }

  lemma {:induction false} BodyParses(f: Frame, body: seq<byte>)
    requires f.st.InSb? && f.sb == [] && !f.overflow
    ensures FrameRun(f, Escape(body)) == (Cut(f, body), [])
  {
    hide FrameRun;
    hide FrameStep;
    hide PushSb;
    if body == [] {
      FrameRunNone(f);
    } else {
      var n := |body| - 1;
      BodyParses(f, body[..n]);
      BodyByteParses(Cut(f, body[..n]), body[n]);
      CutMore(f, body, n);
      FrameRunConcat(f, Escape(body[..n]), Escaped1(body[n]));
    }
  }

  lemma SubParses(f: Frame, body: seq<byte>)
    requires f.st.InData?
    ensures FrameRun(f, PrintItem(Sub(body))).1 == ItemTokens(Sub(body))
    ensures FrameRun(f, PrintItem(Sub(body))).0.st.InData?
  {
    hide Escape;
    hide FrameRun;
    var open := f.(sb := [], overflow := false, st := InSb);
    var read := Cut(open, body);
    Two(f, IAC, SB);
    BodyParses(open, body);
    Two(read, IAC, SE);
    FrameRunConcat(f, [IAC, SB], Escape(body));
    FrameRunConcat(f, [IAC, SB] + Escape(body), [IAC, SE]);
  }

  lemma ItemParses(f: Frame, i: Item)
    requires f.st.InData? && Sayable(i)
    ensures FrameRun(f, PrintItem(i)).1 == ItemTokens(i) && FrameRun(f, PrintItem(i)).0.st.InData?
  {
    match i {
      case Text(bytes) => TextParses(f, bytes);
      case Negotiate(verb, opt) => Three(f, IAC, verb, opt);
      case Sub(body) => SubParses(f, body);
      case Plain(cmd) => Two(f, IAC, cmd);
    }
  }

  // The parser undoes the printer: from between items, any list of items is read as exactly those items,
  // in order, and the parser is between items again.
  lemma {:induction false} PrintParses(f: Frame, items: seq<Item>)
    requires f.st.InData? && forall i :: 0 <= i < |items| ==> Sayable(items[i])
    ensures FrameRun(f, Print(items)).1 == Meaning(items) && FrameRun(f, Print(items)).0.st.InData?
  {
    hide PrintItem;
    hide ItemTokens;
    hide FrameRun;
    if items == [] {
      FrameRunNone(f);
    } else {
      var n := |items| - 1;
      PrintParses(f, items[..n]);
      var mid := FrameRun(f, Print(items[..n])).0;
      ItemParses(mid, items[n]);
      FrameRunConcat(f, Print(items[..n]), PrintItem(items[n]));
    }
  }

  // ----- The server's replies -----

  // A reply as an item of the printer
  function ReplyItem(r: Reply): Item {
    match r
    case Announce(verb, opt) => Negotiate(verb, opt)
    case ComPort(cmd, payload) => Sub([OPT_COM_PORT, (cmd as int + 100) % 256] + payload)
  }

  lemma {:induction false} EscapeConcat(a: seq<byte>, b: seq<byte>)
    ensures Escape(a + b) == Escape(a) + Escape(b)
  {
    if b == [] {
      assert a + b == a;
    } else {
      var n := |b| - 1;
      EscapeConcat(a, b[..n]);
      assert (a + b)[..|a + b| - 1] == a + b[..n];
    }
  }

  lemma EscapePair(a: byte, b: byte)
    requires a != IAC
    ensures Escape([a, b]) == [a] + (if b == IAC then [IAC, IAC] else [b])
  {
    assert [a, b][..1] == [a] && [a][..0] == [];
    assert Escape([a]) == Escape([]) + [a];
  }

  // A reply's bytes are what the printer makes of it exactly when the answered command is not 155,
  // whose reply number is 0xFF and goes out undoubled.
  lemma RenderIsPrint(r: Reply)
    ensures Render(r) == PrintItem(ReplyItem(r)) <==> !(r.ComPort? && r.cmd == 155)
  {
    hide Escape;
    if r.ComPort? {
      var num: byte := (r.cmd as int + 100) % 256;
      EscapePair(OPT_COM_PORT, num);
      EscapeConcat([OPT_COM_PORT, num], r.payload);
      FramesDiffer(num, Escape(r.payload));
    }
  }

  lemma FramesDiffer(num: byte, payload: seq<byte>)
    ensures var doubled: seq<byte> := if num == IAC then [IAC, IAC] else [num];
            var right := [IAC, SB] + ([OPT_COM_PORT] + doubled + payload) + [IAC, SE];
            [IAC, SB, OPT_COM_PORT, num] + payload + [IAC, SE] == right <==> num != IAC
  {
    var left := [IAC, SB, OPT_COM_PORT, num] + payload + [IAC, SE];
    if num == IAC {
      var right := [IAC, SB] + ([OPT_COM_PORT] + [IAC, IAC] + payload) + [IAC, SE];
      assert |right| == |left| + 1;
    } else {
      assert left == [IAC, SB] + ([OPT_COM_PORT] + [num] + payload) + [IAC, SE];
    }
  }

  // So every such reply comes out of a Telnet parser as what it says.
  lemma RenderParses(f: Frame, r: Reply)
    requires f.st.InData? && Sayable(ReplyItem(r)) && !(r.ComPort? && r.cmd == 155)
    ensures FrameRun(f, Render(r)).1 == ItemTokens(ReplyItem(r)) && FrameRun(f, Render(r)).0.st.InData?
  {
    RenderIsPrint(r);
    ItemParses(f, ReplyItem(r));
  }

  lemma RenderOne(r: Reply)
    ensures RenderAll([r]) == Render(r)
  {
  }

  lemma {:induction false} RenderAllConcat(a: seq<Reply>, b: seq<Reply>)
    ensures RenderAll(a + b) == RenderAll(a) + RenderAll(b)
  {
    hide Render;
    if b == [] {
      assert a + b == a;
    } else {
      var n := |b| - 1;
      RenderAllConcat(a, b[..n]);
      assert (a + b)[..|a + b| - 1] == a + b[..n];
      assert RenderAll(a) + (RenderAll(b[..n]) + Render(b[n])) == RenderAll(a) + RenderAll(b[..n]) + Render(b[n]);
    }
  }

  // ----- Nothing says the same in fewer bytes -----

  // The bytes it takes at least to say a token, of whose body no more than `cap` bytes are counted
  function Weight(t: Token, cap: nat): nat {
    match t
    case Data(b) => if b == IAC then 2 else 1
    case Command(_, _) => 3
    case Subnegotiation(body, _) => 4 + Min(|Escape(body)|, cap)
  }

  function Weights(ts: seq<Token>, cap: nat): nat {
    if ts == [] then 0 else Weights(ts[..|ts| - 1], cap) + Weight(ts[|ts| - 1], cap)
  }

  // The bytes it has taken at least to get half way
  function Pending(f: Frame, cap: nat): nat {
    match f.st
    case InData => 0
    case InIac => 1
    case InVerb => 2
    case InSb => 2 + Min(|Escape(f.sb)|, cap)
    case InSbIac => 3 + Min(|Escape(f.sb)|, cap)
  }

  lemma EscapeLonger(s: seq<byte>, b: byte)
    ensures |Escape(s + [b])| == |Escape(s)| + if b == IAC then 2 else 1
  {
    assert (s + [b])[..|s|] == s;
  }

  lemma WeightsMore(ts: seq<Token>, more: seq<Token>, cap: nat)
    requires |more| <= 1
    ensures Weights(ts + more, cap) == Weights(ts, cap) + if more == [] then 0 else Weight(more[0], cap)
  {
    if more == [] {
      assert ts + more == ts;
    } else {
      assert (ts + more)[..|ts|] == ts;
    }
  }

  lemma StepTakesAByte(f: Frame, b: byte, cap: nat)
    ensures var (f', ts) := FrameStep(f, b);
            |ts| <= 1 && (if ts == [] then 0 else Weight(ts[0], cap)) + Pending(f', cap) <= Pending(f, cap) + 1
  {
    hide Escape;
    EscapeLonger(f.sb, b);
    EscapeNone();
  }

  lemma EscapeNone()
    ensures Escape([]) == []
  {
  }

  // Whatever is read, its tokens and what is begun weigh no more than the bytes and what was begun before.
  lemma {:induction false} NothingShorter(f: Frame, s: seq<byte>, cap: nat)
    ensures var (f', ts) := FrameRun(f, s); Weights(ts, cap) + Pending(f', cap) <= Pending(f, cap) + |s|
  {
    hide FrameStep;
    hide Weight;
    hide Pending;
    if s != [] {
      var n := |s| - 1;
      NothingShorter(f, s[..n], cap);
      var (f1, t1) := FrameRun(f, s[..n]);
      StepTakesAByte(f1, s[n], cap);
      WeightsMore(t1, FrameStep(f1, s[n]).1, cap);
    }
  }

  // An item that the printer says as shortly as can be: no plain command, no body that will be cut
  predicate Terse(i: Item) { !i.Plain? && (i.Sub? ==> |i.body| <= SB_MAX) }

  lemma {:induction false} WeightsJoin(a: seq<Token>, b: seq<Token>, cap: nat)
    ensures Weights(a + b, cap) == Weights(a, cap) + Weights(b, cap)
  {
    hide Weight;
    if b == [] {
      assert a + b == a;
    } else {
      var n := |b| - 1;
      WeightsJoin(a, b[..n], cap);
      assert (a + b)[..|a + b| - 1] == a + b[..n];
    }
  }

  lemma {:induction false} TextWeighs(bytes: seq<byte>, cap: nat)
    ensures Weights(DataTokens(bytes), cap) == |Escape(bytes)|
  {
    if bytes != [] {
      var n := |bytes| - 1;
      TextWeighs(bytes[..n], cap);
      assert DataTokens(bytes) == DataTokens(bytes[..n]) + [Data(bytes[n])];
      assert (DataTokens(bytes[..n]) + [Data(bytes[n])])[..n] == DataTokens(bytes[..n]);
    }
  }

  lemma {:induction false} EscapeAtMostDoubles(s: seq<byte>)
    ensures |s| <= |Escape(s)| <= 2 * |s|
    ensures (forall i :: 0 <= i < |s| ==> s[i] != IAC) ==> |Escape(s)| == |s|
  {
    if s != [] {
      EscapeAtMostDoubles(s[..|s| - 1]);
    }
  }

  lemma ItemWeighs(i: Item)
    requires Terse(i)
    ensures |PrintItem(i)| == Weights(ItemTokens(i), 2 * SB_MAX)
  {
    hide Escape;
    match i {
      case Text(bytes) => TextWeighs(bytes, 2 * SB_MAX);
      case Negotiate(verb, opt) => WeightsMore([], [Command(verb, opt)], 2 * SB_MAX);
      case Sub(body) =>
        assert body[..Min(|body|, SB_MAX)] == body;
        EscapeAtMostDoubles(body);
        WeightsMore([], [Subnegotiation(body, false)], 2 * SB_MAX);
        assert [] + [Subnegotiation(body, false)] == [Subnegotiation(body, false)];
    }
  }

  lemma {:induction false} ItemsWeigh(items: seq<Item>)
    requires forall i :: 0 <= i < |items| ==> Terse(items[i])
    ensures |Print(items)| == Weights(Meaning(items), 2 * SB_MAX)
  {
    hide PrintItem;
    hide ItemTokens;
    hide Weights;
    hide Terse;
    if items == [] {
      NoWeight(2 * SB_MAX);
    } else {
      var n := |items| - 1;
      ItemsWeigh(items[..n]);
      ItemWeighs(items[n]);
      WeightsJoin(Meaning(items[..n]), ItemTokens(items[n]), 2 * SB_MAX);
    }
  }

  lemma NoWeight(cap: nat)
    ensures Weights([], cap) == 0
  {
  }

  // So a stream that is read as these items is at least as long as the printer's.
  lemma ReadAsNeedsBytes(f: Frame, s: seq<byte>, items: seq<Item>)
    requires f.st.InData? && FrameRun(f, s).1 == Meaning(items)
    requires forall i :: 0 <= i < |items| ==> Terse(items[i])
    ensures |s| >= |Print(items)|
  {
    NothingShorter(f, s, 2 * SB_MAX);
    ItemsWeigh(items);
  }
}
