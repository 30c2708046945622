// One client of the RFC 2217 server over a whole connection (src/platform/esp32/main/rfc2217.cpp): what it is
// sent, and what it reads from that.
module ClientRuns {
  import opened Bytes
  import opened EchoFilter
  import opened Negotiation
  import opened Options
  import opened Rfc2217
  import opened Telnet
  import opened TelnetTheorems
  import RxTap

  const REPLY_SIZE := 256
  const RAW_SIZE := 128
  const LINE_SIZE := 128

  // ----- What the client types -----

  predicate IsEnd(b: byte) { b == 13 || b == 10 }

  // The first byte from `start` on that is no line end
  function Front(s: seq<byte>, start: nat): (k: nat)
    requires start <= |s|
    ensures start <= k <= |s|
    decreases |s| - start
  {
    if start < |s| && IsEnd(s[start]) then Front(s, start + 1) else start
  }

  // Behind the last byte before `end` that is no line end
  function Back(s: seq<byte>, start: nat, end: nat): (k: nat)
    requires start <= end <= |s|
    ensures start <= k <= end
    decreases end
  {
    if start < end && IsEnd(s[end - 1]) then Back(s, start, end - 1) else end
  }

  function Trimmed(s: seq<byte>): seq<byte> { s[Front(s, 0)..Back(s, Front(s, 0), |s|)] }

  // The input a whole typed line asks about, or -1
  function Asks(line: seq<byte>): int { AskedInput(Trimmed(line)) }

  // A typed byte: the line being typed, and what the line asks if it is whole
  function TypeByte(line: seq<byte>, b: byte): (seq<byte>, int) {
    var more := if |line| < LINE_SIZE then line + [b] else line;
    if b == LF || |more| == LINE_SIZE then ([], Asks(more)) else (more, -1)
  }

  // What typing leaves: the line, the filter, and what became of what the filter held
  datatype Typing = Typing(line: seq<byte>, echo: Echo, acts: seq<Act>)

  function TypeAll(line: seq<byte>, echo: Echo, data: seq<byte>): Typing {
    if data == [] then Typing(line, echo, [])
    else
      var t := TypeAll(line, echo, data[..|data| - 1]);
      var (line', n) := TypeByte(t.line, data[|data| - 1]);
      if n < 0 then t.(line := line')
      else Typing(line', ActStep(t.echo, Expects(n)).0, t.acts + [Expects(n)])
  }

  // The line buffer of a client
  class TypedLine {
    const line: array<byte>
    var len: nat

    ghost predicate Valid()
      reads this
    {
      line.Length == LINE_SIZE && len < LINE_SIZE
    }

    constructor ()
      ensures Valid() && fresh(line) && len == 0
    {
      line := new byte[LINE_SIZE](_ => 0);
      len := 0;
    }

    // A whole line, without the line ends around it
    method LogLine(echo: Filter)
      requires line.Length == LINE_SIZE && len <= LINE_SIZE && echo.Valid() && echo.hold != line
      modifies this`len, echo
      ensures Valid() && len == 0 && echo.Valid()
      ensures var n := Asks(old(line[..len]));
              echo.State() == if n >= 0 then ActStep(old(echo.State()), Expects(n)).0 else old(echo.State())
    {
      hide AskedInput;
      var s := line[..len];
      var start, end := 0, len;
      while start < end && IsEnd(s[start])
        invariant start <= end == len && Front(s, start) == Front(s, 0)
      {
        start := start + 1;
      }
      while end > start && IsEnd(s[end - 1])
        invariant start <= end <= len && Back(s, start, end) == Back(s, start, len)
      {
        end := end - 1;
      }
      var cmd := s[start..end];
      len := 0;
      var n := AskedInput(cmd);
      if n >= 0 {
        echo.Expect(n);
      }
    }

    // Bytes for the switch, which are also typed if it took them
    method FromClient(data: seq<byte>, accepted: bool, echo: Filter)
      requires Valid() && echo.Valid() && echo.hold != line
      modifies this`len, line, echo
      ensures Valid() && echo.Valid()
      ensures !accepted ==> len == 0 && echo.State() == old(echo.State())
      ensures accepted ==>
                var t := TypeAll(old(line[..len]), old(echo.State()), data);
                line[..len] == t.line && echo.State() == t.echo
    {
      hide Asks;
      hide ActStep;
      if !accepted {
        len := 0;
        return;
      }
      assert data[..0] == [];
      for i := 0 to |data|
        invariant Valid() && echo.Valid()
        invariant var t := TypeAll(old(line[..len]), old(echo.State()), data[..i]);
                  line[..len] == t.line && echo.State() == t.echo
      {
        assert data[..i + 1][..i] == data[..i];
        ghost var before := line[..len];
        line[len] := data[i];
        len := len + 1;
        assert line[..len] == before + [data[i]];
        if data[i] == LF || len == LINE_SIZE {
          LogLine(echo);
        }
      }
      assert data[..|data|] == data;
    }
  }

  // ----- A connection -----

  datatype Client = Client(
    frame: Frame,
    session: Session,
    line: seq<byte>,
    echo: Echo,
    reader: RxTap.Reader,
    modem: Option<byte>)

  // What happens to a connection: a read of the client's bytes, which the switch takes or not; the modem state is
  // looked at; the wait for an answer runs out; the switch says something; the client is given up to 128 bytes of it
  datatype Event =
    | Received(input: seq<byte>, modem: byte, accepted: bool)
    | Looked(modem: byte)
    | TimedOut
    | Came(bytes: seq<byte>)
    | Given

  // What an event does: the replies and the items it is meant to say, what is sent for them, what would be sent if
  // the reply buffer had room for all, and what happens to the filter
  datatype Turn = Turn(client: Client, replies: seq<Reply>, items: seq<Item>, sent: seq<byte>, full: seq<byte>,
                       acts: seq<Act>)

  function Answered(c: Client, replies: seq<Reply>, acts: seq<Act>): Turn {
    var full := RenderAll(replies);
    Turn(c, replies, ReplyItems(replies), Fill([], full, REPLY_SIZE), full, acts)
  }

  // An act that lets something out, sent as text
  function Spoken(c: Client, a: Act): Turn {
    var (echo, ps) := ActStep(c.echo, a);
    var text := PassedBytes(ps);
    Turn(c.(echo := echo), [], [Text(text)], Escape(text), Escape(text), [a])
  }

  // The bytes that come with the next question to the tap
  function NextBytes(r: RxTap.Reader): seq<byte>
    requires r.at <= |r.history|
  {
    var start := Max(r.at, RxTap.Oldest(|r.history|));
    r.history[start..start + Min(RAW_SIZE, |r.history| - start)]
  }

  function StepOf(c: Client, e: Event): Turn
    requires c.reader.at <= |c.reader.history|
  {
    match e
    case Received(input, modem, accepted) =>
      var (f, s, effect) := Serve(c.frame, c.session, input, modem);
      var t := if accepted || effect.data == [] then TypeAll(c.line, c.echo, effect.data) else Typing([], c.echo, []);
      Answered(c.(frame := f, session := s, line := t.line, echo := t.echo), effect.replies, t.acts)
    case Looked(modem) =>
      if c.modem == Some(modem) then Answered(c, [], [])
      else Answered(c.(modem := Some(modem)), [ComPort(7, [modem])], [])
    case TimedOut => if c.echo.input < 0 then Answered(c, [], []) else Spoken(c, GivesUp)
    case Came(bytes) => Answered(c.(reader := RxTap.After(c.reader, RxTap.Came(bytes))), [], [])
    case Given => Spoken(c.(reader := RxTap.After(c.reader, RxTap.Asked(RAW_SIZE))), Says(NextBytes(c.reader)))
  }

  function Start(history: seq<byte>): Client {
    Client(NEW_FRAME, Greeted(NEW_SESSION), [], Echo(-1, [], 0), RxTap.Reader(history, |history|, [], 0), None)
  }

  // A connection that began after `history`, all that has been sent in it and all that was meant
  function Run(history: seq<byte>, events: seq<Event>): (t: Turn)
    ensures t.client.reader.at <= |t.client.reader.history|
  {
    if events == [] then
      Turn(Start(history), GREETING, ReplyItems(GREETING), RenderAll(GREETING), RenderAll(GREETING), [])
    else
      var before := Run(history, events[..|events| - 1]);
      var t := StepOf(before.client, events[|events| - 1]);
      Turn(t.client, before.replies + t.replies, before.items + t.items, before.sent + t.sent, before.full + t.full,
           before.acts + t.acts)
  }

  // ----- What is cut -----

  // The replies to a read fit the reply buffer
  predicate Fits(c: Client, e: Event) {
    e.Received? ==> |RenderAll(Serve(c.frame, c.session, e.input, e.modem).2.replies)| <= REPLY_SIZE
  }

  // A read does not have the vendor command answered
  predicate NotVendor(c: Client, e: Event) { e.Received? ==> NoVendor(FrameRun(c.frame, e.input).1) }

  predicate AllFit(history: seq<byte>, events: seq<Event>) {
    events != [] ==>
      var n := |events| - 1;
      AllFit(history, events[..n]) && Fits(Run(history, events[..n]).client, events[n])
  }

  predicate NeverVendor(history: seq<byte>, events: seq<Event>) {
    events != [] ==>
      var n := |events| - 1;
      NeverVendor(history, events[..n]) && NotVendor(Run(history, events[..n]).client, events[n])
  }

  lemma StepCut(c: Client, e: Event)
    requires c.reader.at <= |c.reader.history|
    ensures var t := StepOf(c, e);
            |t.sent| <= |t.full| && (t.sent == t.full <==> Fits(c, e)) && (|t.sent| == |t.full| <==> Fits(c, e))
  {
    hide RenderAll;
    hide Serve;
    hide TypeAll;
    hide ActStep;
    hide Escape;
    ShortOnes();
    if e.Looked? {
      LookedFits(e.modem);
    }
  }

  lemma ShortOnes()
    ensures RenderAll([]) == []
  {
  }

  lemma LookedFits(modem: byte)
    ensures |RenderAll([ComPort(7, [modem])])| <= 8
  {
    RenderOne(ComPort(7, [modem]));
    EscapeOne(modem);
  }

  // All that the server means to say is sent if and only if the replies to each read fit the buffer.
  lemma {:induction false} SentIsAll(history: seq<byte>, events: seq<Event>)
    ensures var t := Run(history, events);
            && |t.sent| <= |t.full|
            && (t.sent == t.full <==> AllFit(history, events)) && (|t.sent| == |t.full| <==> AllFit(history, events))
  {
    hide StepOf;
    hide Fits;
    if events != [] {
      var n := |events| - 1;
      SentIsAll(history, events[..n]);
      StepCut(Run(history, events[..n]).client, events[n]);
    }
  }

  // ----- What is meant is what is read -----

  predicate FrameOk(f: Frame) { f.st.InVerb? ==> WILL <= f.verb <= DONT }

  predicate Plain(i: Item) { Sayable(i) && Terse(i) }

  predicate AllPlain(items: seq<Item>) { forall i :: 0 <= i < |items| ==> Plain(items[i]) }

  lemma KnownArePlain(rs: seq<Reply>)
    requires AllKnown(rs)
    ensures AllPlain(ReplyItems(rs))
  {
    ReplyItemsAt(rs);
    forall i | 0 <= i < |rs|
      ensures Plain(ReplyItems(rs)[i])
    {
      assert Known(rs[i]);
      KnownIsPlain(rs[i]);
    }
  }

  lemma KnownIsPlain(r: Reply)
    requires Known(r)
    ensures Plain(ReplyItem(r))
  {
    hide Escape;
  }

  lemma {:induction false} PrintJoin(a: seq<Item>, b: seq<Item>)
    ensures Print(a + b) == Print(a) + Print(b) && Meaning(a + b) == Meaning(a) + Meaning(b)
  {
    hide PrintItem;
    hide ItemTokens;
    if b == [] {
      assert a + b == a;
    } else {
      var n := |b| - 1;
      PrintJoin(a, b[..n]);
      assert (a + b)[..|a + b| - 1] == a + b[..n];
      assert Print(a) + (Print(b[..n]) + PrintItem(b[n])) == Print(a) + Print(b[..n]) + PrintItem(b[n]);
      assert Meaning(a) + (Meaning(b[..n]) + ItemTokens(b[n])) == Meaning(a) + Meaning(b[..n]) + ItemTokens(b[n]);
    }
  }

  lemma PrintOne(i: Item)
    ensures Print([i]) == PrintItem(i) && Meaning([i]) == ItemTokens(i)
  {
    assert [i][..0] == [];
    assert Print([]) == [] && Meaning([]) == [];
  }

  // The replies and items of an event, and how long what is meant is when it is printed
  predicate WellSaid(t: Turn, clean: bool) {
    && AllKnown(t.replies) && AllPlain(t.items)
    && |t.full| <= |Print(t.items)| && (|t.full| == |Print(t.items)| <==> clean)
    && (clean ==> t.full == Print(t.items))
  }

  lemma RepliesWellSaid(c: Client, rs: seq<Reply>, acts: seq<Act>)
    requires AllKnown(rs)
    ensures WellSaid(Answered(c, rs, acts), AllWellFormed(rs))
  {
    hide RenderAll;
    hide Print;
    hide WellFormed;
    hide Known;
    hide Plain;
    KnownArePlain(rs);
    RenderedLength(rs);
    if AllWellFormed(rs) {
      RenderAllIsPrint(rs);
    }
  }

  lemma TextWellSaid(c: Client, a: Act)
    ensures WellSaid(Spoken(c, a), true)
  {
    hide Escape;
    hide PassedBytes;
    hide ActStep;
    PrintOne(Text(PassedBytes(ActStep(c.echo, a).1)));
  }

  lemma StepWellSaid(c: Client, e: Event)
    requires c.reader.at <= |c.reader.history| && FrameOk(c.frame)
    ensures WellSaid(StepOf(c, e), NotVendor(c, e)) && FrameOk(StepOf(c, e).client.frame)
  {
    hide WellSaid;
    hide FrameRun;
    hide HandleAll;
    hide TypeAll;
    hide ActStep;
    hide Escape;
    hide Known;
    hide WellFormed;
    hide Vendor;
    match e {
      case Received(input, modem, accepted) =>
        VerbsAreVerbs(c.frame, input);
        AnswersAreKnown(c.session, FrameRun(c.frame, input).1, modem);
        var t := StepOf(c, e);
        RepliesWellSaid(t.client, t.replies, t.acts);
      case Looked(modem) =>
        var t := StepOf(c, e);
        ModemKnown(modem);
        RepliesWellSaid(t.client, t.replies, t.acts);
      case TimedOut =>
        RepliesWellSaid(c, [], []);
        TextWellSaid(c, GivesUp);
      case Came(bytes) => RepliesWellSaid(StepOf(c, e).client, [], []);
      case Given =>
        TextWellSaid(c.(reader := RxTap.After(c.reader, RxTap.Asked(RAW_SIZE))), Says(NextBytes(c.reader)));
    }
  }

  lemma ModemKnown(modem: byte)
    ensures AllKnown([ComPort(7, [modem])]) && AllWellFormed([ComPort(7, [modem])])
  {
    EscapeOne(modem);
  }

  lemma WellSaidJoin(a: Turn, b: Turn, cleanA: bool, cleanB: bool, t: Turn)
    requires WellSaid(a, cleanA) && WellSaid(b, cleanB)
    requires t.replies == a.replies + b.replies && t.items == a.items + b.items && t.full == a.full + b.full
    ensures WellSaid(t, cleanA && cleanB)
  {
    hide Known;
    hide WellFormed;
    hide Plain;
    PrintJoin(a.items, b.items);
    JoinedReplies(a.replies, b.replies);
  }

  lemma {:induction false} RunWellSaid(history: seq<byte>, events: seq<Event>)
    ensures WellSaid(Run(history, events), NeverVendor(history, events)) && FrameOk(Run(history, events).client.frame)
  {
    hide WellSaid;
    hide StepOf;
    hide NotVendor;
    if events == [] {
      hide Known;
      hide WellFormed;
      GreetingWellFormed();
      RepliesWellSaid(Start(history), GREETING, []);
      GreetingSaid(history);
    } else {
      var n := |events| - 1;
      RunWellSaid(history, events[..n]);
      var before := Run(history, events[..n]);
      StepWellSaid(before.client, events[n]);
      WellSaidJoin(before, StepOf(before.client, events[n]), NeverVendor(history, events[..n]),
                   NotVendor(before.client, events[n]), Run(history, events));
    }
  }

  lemma GreetingSaid(history: seq<byte>)
    requires WellSaid(Answered(Start(history), GREETING, []), AllWellFormed(GREETING)) && AllWellFormed(GREETING)
    ensures WellSaid(Run(history, []), true)
  {
  }

  // In every run, the client reads from all the bytes it is sent exactly what was meant, item by item, if and only if
  // the replies to each read fit the reply buffer and the vendor command is never answered.
  lemma ReadAsMeant(history: seq<byte>, events: seq<Event>, f: Frame)
    requires f.st.InData?
    ensures var t := Run(history, events);
            && (FrameRun(f, t.sent).1 == Meaning(t.items) <==> AllFit(history, events) && NeverVendor(history, events))
            && (AllFit(history, events) && NeverVendor(history, events) ==> FrameRun(f, t.sent).0.st.InData?)
  {
    hide Run;
    hide FrameRun;
    hide AllFit;
    hide NeverVendor;
    hide Meaning;
    hide Print;
    hide Known;
    var t := Run(history, events);
    SentIsAll(history, events);
    RunWellSaid(history, events);
    assert forall i :: 0 <= i < |t.items| ==> Plain(t.items[i]);
    if AllFit(history, events) && NeverVendor(history, events) {
      PrintParses(f, t.items);
    } else if FrameRun(f, t.sent).1 == Meaning(t.items) {
      ReadAsNeedsBytes(f, t.sent, t.items);
    }
  }
}
