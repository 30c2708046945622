// What a client of the RFC 2217 server can rely on over a whole connection.
module ClientTheorems {
  import opened Bytes
  import opened ClientRuns
  import opened EchoFilter
  import opened Negotiation
  import opened Options
  import opened Telnet
  import opened TelnetSettings
  import opened TelnetTheorems
  import Rfc2217
  import RxTap

  // ----- The options -----

  // The announcements among what is read, and among replies
  function Announced(ts: seq<Token>): seq<Reply> {
    if ts == [] then []
    else
      var t := ts[|ts| - 1];
      Announced(ts[..|ts| - 1]) + (if t.Command? then [Announce(t.verb, t.opt)] else [])
  }

  function Announcements(rs: seq<Reply>): seq<Reply> {
    if rs == [] then []
    else Announcements(rs[..|rs| - 1]) + (if rs[|rs| - 1].Announce? then [rs[|rs| - 1]] else [])
  }

  lemma {:induction false} AnnouncedJoin(a: seq<Token>, b: seq<Token>)
    ensures Announced(a + b) == Announced(a) + Announced(b)
  {
    if b == [] {
      assert a + b == a;
    } else {
      AnnouncedJoin(a, b[..|b| - 1]);
      assert (a + b)[..|a + b| - 1] == a + b[..|b| - 1];
    }
  }

  lemma {:induction false} AnnouncementsJoin(a: seq<Reply>, b: seq<Reply>)
    ensures Announcements(a + b) == Announcements(a) + Announcements(b)
  {
    if b == [] {
      assert a + b == a;
    } else {
      AnnouncementsJoin(a, b[..|b| - 1]);
      assert (a + b)[..|a + b| - 1] == a + b[..|b| - 1];
    }
  }

  lemma {:induction false} TextAnnouncesNothing(bytes: seq<byte>)
    ensures Announced(DataTokens(bytes)) == []
  {
    if bytes != [] {
      var n := |bytes| - 1;
      TextAnnouncesNothing(bytes[..n]);
      assert DataTokens(bytes)[..n] == DataTokens(bytes[..n]);
    }
  }

  lemma OneAnnounced(r: Reply)
    ensures Announced(ItemTokens(ReplyItem(r))) == if r.Announce? then [r] else []
  {
    var ts := ItemTokens(ReplyItem(r));
    assert ts[..0] == [] && Announced([]) == [];
    assert Announced(ts) == Announced(ts[..0]) + if r.Announce? then [r] else [];
  }

  lemma {:induction false} RepliesAnnounced(rs: seq<Reply>)
    ensures Announced(Meaning(ReplyItems(rs))) == Announcements(rs)
  {
    hide ItemTokens;
    hide ReplyItem;
    hide Announced;
    if rs == [] {
      assert Announced([]) == [] by { NothingAnnounced(); }
    } else {
      var n := |rs| - 1;
      RepliesAnnounced(rs[..n]);
      ReplyItemsAt(rs);
      ReplyItemsAt(rs[..n]);
      assert ReplyItems(rs)[..n] == ReplyItems(rs[..n]);
      OneAnnounced(rs[n]);
      AnnouncedJoin(Meaning(ReplyItems(rs[..n])), ItemTokens(ReplyItem(rs[n])));
    }
  }

  lemma NothingAnnounced()
    ensures Announced([]) == []
  {
  }

  lemma {:induction false} OnlyAnnouncementsCount(rs: seq<Reply>, opt: byte)
    ensures WeSaid(Announcements(rs), opt) == WeSaid(rs, opt) && TheySaid(Announcements(rs), opt) == TheySaid(rs, opt)
  {
    hide WeSaid;
    hide TheySaid;
    if rs != [] {
      var n := |rs| - 1;
      OnlyAnnouncementsCount(rs[..n], opt);
      assert rs == rs[..n] + [rs[n]];
      SaidMore(rs[..n], rs[n], opt);
      SaidMore(Announcements(rs[..n]), rs[n], opt);
      assert Announcements(rs[..n]) + [] == Announcements(rs[..n]);
    }
  }

  lemma StepAnnounces(c: Client, e: Event)
    requires c.reader.at <= |c.reader.history|
    ensures var t := StepOf(c, e); Announced(Meaning(t.items)) == Announcements(t.replies)
  {
    hide Announced;
    hide Meaning;
    hide ReplyItems;
    hide Serve;
    hide TypeAll;
    hide ActStep;
    hide PassedBytes;
    hide RenderAll;
    hide Escape;
    var t := StepOf(c, e);
    if t.items == ReplyItems(t.replies) {
      RepliesAnnounced(t.replies);
    } else {
      TextAnnounces(t.items[0].bytes);
    }
  }

  lemma TextAnnounces(text: seq<byte>)
    ensures Announced(Meaning([Text(text)])) == [] == Announcements([])
  {
    hide Announced;
    hide Meaning;
    PrintOne(Text(text));
    TextAnnouncesNothing(text);
  }

  lemma {:induction false} RunAnnounces(history: seq<byte>, events: seq<Event>)
    ensures var t := Run(history, events); Announced(Meaning(t.items)) == Announcements(t.replies)
  {
    hide Announced;
    hide Announcements;
    hide Meaning;
    hide StepOf;
    if events == [] {
      RepliesAnnounced(GREETING);
    } else {
      var n := |events| - 1;
      RunAnnounces(history, events[..n]);
      var before := Run(history, events[..n]);
      var t := StepOf(before.client, events[n]);
      StepAnnounces(before.client, events[n]);
      PrintJoin(before.items, t.items);
      AnnouncedJoin(Meaning(before.items), Meaning(t.items));
      AnnouncementsJoin(before.replies, t.replies);
    }
  }

  lemma StepInStep(rs: seq<Reply>, c: Client, e: Event)
    requires c.reader.at <= |c.reader.history| && AllInStep(rs, c.session)
    ensures var t := StepOf(c, e); AllInStep(rs + t.replies, t.client.session)
  {
    hide FrameRun;
    hide HandleAll;
    hide TypeAll;
    hide ActStep;
    hide PassedBytes;
    hide RenderAll;
    hide Escape;
    hide OptionInStep;
    var t := StepOf(c, e);
    if e.Received? {
      TokensInStep(rs, c.session, FrameRun(c.frame, e.input).1, e.modem);
    } else {
      ComPortKept(rs, c.session, c.session, OPT_BINARY, t.replies);
      ComPortKept(rs, c.session, c.session, OPT_SGA, t.replies);
    }
  }

  lemma {:induction false} RunInStep(history: seq<byte>, events: seq<Event>)
    ensures var t := Run(history, events); AllInStep(t.replies, t.client.session)
  {
    hide AllInStep;
    hide StepOf;
    if events == [] {
      GreetingInStep(NEW_SESSION);
    } else {
      var n := |events| - 1;
      RunInStep(history, events[..n]);
      var before := Run(history, events[..n]);
      StepInStep(before.replies, before.client, events[n]);
    }
  }

  lemma SameSaid(rs: seq<Reply>, s: Session)
    ensures AllInStep(Announcements(rs), s) <==> AllInStep(rs, s)
  {
    OnlyAnnouncementsCount(rs, OPT_BINARY);
    OnlyAnnouncementsCount(rs, OPT_SGA);
  }

  // In every run, the announcements the server means to make about an option alternate, and the last is how the option
  // stands; and if nothing is cut or misread, those are the announcements the client reads.
  lemma AnnouncedInStep(history: seq<byte>, events: seq<Event>, f: Frame)
    requires f.st.InData?
    ensures var t := Run(history, events);
            && AllInStep(t.replies, t.client.session)
            && (AllFit(history, events) && NeverVendor(history, events) ==>
                  AllInStep(Announced(FrameRun(f, t.sent).1), t.client.session))
  {
    hide Run;
    hide FrameRun;
    hide AllFit;
    hide NeverVendor;
    hide AllInStep;
    hide Announced;
    var t := Run(history, events);
    RunInStep(history, events);
    RunAnnounces(history, events);
    ReadAsMeant(history, events, f);
    SameSaid(t.replies, t.client.session);
  }

  // All the bytes that were read
  function AllInput(events: seq<Event>): seq<byte> {
    if events == [] then []
    else
      var e := events[|events| - 1];
      AllInput(events[..|events| - 1]) + (if e.Received? then e.input else [])
  }

  lemma StepAsks(c: Client, e: Event)
    requires c.reader.at <= |c.reader.history|
    ensures var c', (f, ts) := StepOf(c, e).client, FrameRun(c.frame, if e.Received? then e.input else []);
            c'.frame == f && AsAsked(c.session, ts, c'.session)
  {
    hide FrameRun;
    hide HandleAll;
    hide TypeAll;
    hide ActStep;
    hide PassedBytes;
    hide RenderAll;
    hide Escape;
    hide AsAsked;
    if e.Received? {
      SessionIsLastAsked(c.session, FrameRun(c.frame, e.input).1, e.modem);
    } else {
      FrameRunNone(c.frame);
      NothingAsked(c.session);
    }
  }

  // In every run the options stand and the line is set as the client last asked, whatever its reads were.
  lemma {:induction false} RunIsAsAsked(history: seq<byte>, events: seq<Event>)
    ensures var c, (f, ts) := Run(history, events).client, FrameRun(NEW_FRAME, AllInput(events));
            c.frame == f && AsAsked(Greeted(NEW_SESSION), ts, c.session)
  {
    hide FrameRun;
    hide StepOf;
    hide AsAsked;
    if events == [] {
      FrameRunNone(NEW_FRAME);
      NothingAsked(Greeted(NEW_SESSION));
    } else {
      var n := |events| - 1;
      var e := events[n];
      RunIsAsAsked(history, events[..n]);
      var before := Run(history, events[..n]).client;
      StepAsks(before, e);
      var more: seq<byte> := if e.Received? then e.input else [];
      FrameRunConcat(NEW_FRAME, AllInput(events[..n]), more);
      AskedJoin(Greeted(NEW_SESSION), FrameRun(NEW_FRAME, AllInput(events[..n])).1, before.session,
                FrameRun(before.frame, more).1, StepOf(before, e).client.session);
    }
  }

  // The modem state that was last looked at
  function LastLook(events: seq<Event>): Option<byte> {
    if events == [] then None
    else if events[|events| - 1].Looked? then Some(events[|events| - 1].modem)
    else LastLook(events[..|events| - 1])
  }

  lemma StepLooks(c: Client, e: Event)
    requires c.reader.at <= |c.reader.history|
    ensures StepOf(c, e).client.modem == if e.Looked? then Some(e.modem) else c.modem
  {
    hide Serve;
    hide TypeAll;
    hide ActStep;
    hide RenderAll;
    hide Escape;
  }

  lemma {:induction false} RunLooks(history: seq<byte>, events: seq<Event>)
    ensures Run(history, events).client.modem == LastLook(events)
  {
    hide StepOf;
    if events != [] {
      RunLooks(history, events[..|events| - 1]);
      StepLooks(Run(history, events[..|events| - 1]).client, events[|events| - 1]);
    }
  }

  // The client is told the modem state when it is first looked at and whenever it is another one than before, as
  // IAC SB 44 107 and the state.
  lemma ModemIsTold(history: seq<byte>, events: seq<Event>, modem: byte)
    ensures var t := StepOf(Run(history, events).client, Looked(modem));
            && t.sent == t.full
            && t.full == if LastLook(events) == Some(modem) then [] else
                           [255, 250, 44, 107, modem] + (if modem == 255 then [255] else []) + [255, 240]
  {
    hide Run;
    hide RenderAll;
    RunLooks(history, events);
    var c := Run(history, events).client;
    StepCut(c, Looked(modem));
    LookedFits(modem);
    RenderOne(ComPort(7, [modem]));
    EscapeOne(modem);
    ShortOnes();
    if LastLook(events) != Some(modem) {
      assert Render(ComPort(7, [modem])) == [255, 250, 44, 107] + Escape([modem]) + [255, 240];
      assert [255, 250, 44, 107] + [modem] == [255, 250, 44, 107, modem];
      assert [255, 250, 44, 107] + [255, 255] == [255, 250, 44, 107, 255] + [255];
    }
  }

  // What a client is offered first, in the codes of RFC 854: WILL and DO BINARY, WILL and DO SGA, DO COM-PORT
  lemma OfferedFirst(history: seq<byte>)
    ensures Run(history, []).sent == [255, 251, 0, 255, 253, 0, 255, 251, 3, 255, 253, 3, 255, 253, 44]
  {
    hide RenderAll;
    assert GREETING == [Announce(251, 0)] + [Announce(253, 0)] + [Announce(251, 3)] + [Announce(253, 3)]
                       + [Announce(253, 44)];
    RenderOne(Announce(251, 0));
    NextOffer([Announce(251, 0)], 253, 0);
    NextOffer([Announce(251, 0)] + [Announce(253, 0)], 251, 3);
    NextOffer([Announce(251, 0)] + [Announce(253, 0)] + [Announce(251, 3)], 253, 3);
    NextOffer([Announce(251, 0)] + [Announce(253, 0)] + [Announce(251, 3)] + [Announce(253, 3)], 253, 44);
  }

  lemma NextOffer(rs: seq<Reply>, verb: byte, opt: byte)
    ensures RenderAll(rs + [Announce(verb, opt)]) == RenderAll(rs) + [255, verb, opt]
  {
    RenderAllConcat(rs, [Announce(verb, opt)]);
    RenderOne(Announce(verb, opt));
  }

  // What the switch did not take is not typed: it is forgotten with the line begun, and asks nothing.
  lemma NotTakenNotTyped(c: Client, e: Event)
    requires c.reader.at <= |c.reader.history| && e.Received? && !e.accepted
    requires Serve(c.frame, c.session, e.input, e.modem).2.data != []
    ensures var t := StepOf(c, e); t.client.line == [] && t.client.echo == c.echo && t.acts == []
  {
    hide Serve;
    hide RenderAll;
  }

  // ----- Short reads -----

  const SAFE_READ := 93

  predicate ShortReads(events: seq<Event>) {
    forall i :: 0 <= i < |events| ==> events[i].Received? ==> |events[i].input| <= SAFE_READ
  }

  // The replies to a read of at most 93 bytes always fit the buffer.
  lemma {:induction false} ShortReadsFit(history: seq<byte>, events: seq<Event>)
    requires ShortReads(events)
    ensures AllFit(history, events)
  {
    hide Serve;
    hide RenderAll;
    hide Run;
    hide Pending;
    if events != [] {
      var n := |events| - 1;
      ShortReadsFit(history, events[..n]);
      var c, e := Run(history, events[..n]).client, events[n];
      if e.Received? {
        AnswersBounded(c.frame, c.session, e.input, e.modem);
        MostMonotone(Pending(c.frame, 2) + |e.input|, 98);
      }
    }
  }

  // ----- A read that is not short -----

  // A client's question for the signature, and the answer
  const QUESTION := Sub([OPT_COM_PORT, 0])
  const QUESTION_TOKEN := Subnegotiation([OPT_COM_PORT, 0], false)
  const ANSWER := ComPort(0, SIGNATURE)
  const REFUSAL := Negotiate(DONT, OPT_BINARY)

  function Repeat<T>(x: T, k: nat): seq<T> { if k == 0 then [] else Repeat(x, k - 1) + [x] }

  lemma {:induction false} RepeatIs<T>(x: T, k: nat)
    ensures |Repeat(x, k)| == k && forall i :: 0 <= i < k ==> Repeat(x, k)[i] == x
  {
    if k > 0 {
      RepeatIs(x, k - 1);
    }
  }

  lemma PrefixOfMore<T>(s: seq<T>, x: T)
    ensures (s + [x])[..|s + [x]| - 1] == s
  {
  }

  // The questions are read as such, and each takes 6 bytes.
  lemma {:induction false} QuestionsPrinted(k: nat)
    ensures |Print(Repeat(QUESTION, k))| == 6 * k && Meaning(Repeat(QUESTION, k)) == Repeat(QUESTION_TOKEN, k)
  {
    hide PrintItem;
    if k > 0 {
      QuestionsPrinted(k - 1);
      PrefixOfMore(Repeat(QUESTION, k - 1), QUESTION);
      OneQuestion();
    }
  }

  lemma OneQuestion()
    ensures PrintItem(QUESTION) == [IAC, SB, OPT_COM_PORT, 0, IAC, SE] && ItemTokens(QUESTION) == [QUESTION_TOKEN]
  {
    EscapePair(OPT_COM_PORT, 0);
    assert [OPT_COM_PORT, 0][..2] == [OPT_COM_PORT, 0];
  }

  // The answers take 16 bytes each.
  lemma {:induction false} AnswersRendered(k: nat)
    ensures |RenderAll(Repeat(ANSWER, k))| == 16 * k && AllWellFormed(Repeat(ANSWER, k))
    ensures Announcements(Repeat(ANSWER, k)) == []
  {
    hide Render;
    hide WellFormed;
    if k > 0 {
      AnswersRendered(k - 1);
      PrefixOfMore(Repeat(ANSWER, k - 1), ANSWER);
      OneAnswer();
    }
  }

  lemma OneAnswer()
    ensures |Render(ANSWER)| == 16 && WellFormed(ANSWER)
  {
    hide Escape;
    EscapeAtMostDoubles(SIGNATURE);
  }

  lemma {:induction false} QuestionsAnswered(s: Session, k: nat, modem: byte)
    ensures HandleAll(s, Repeat(QUESTION_TOKEN, k), modem) == (s, Effect([], Repeat(ANSWER, k), false))
  {
    hide Handle;
    var none: seq<byte> := [];
    assert none + none == none;
    if k > 0 {
      QuestionsAnswered(s, k - 1, modem);
      PrefixOfMore(Repeat(QUESTION_TOKEN, k - 1), QUESTION_TOKEN);
      OneAnswered(s, modem);
    }
  }

  lemma OneAnswered(s: Session, modem: byte)
    ensures Handle(s, QUESTION_TOKEN, modem) == (s, Effect([], [ANSWER], false))
  {
  }

  // Half a question, and a read that ends it, asks 15 times more, and then turns an option off: 94 bytes
  const FIRST: seq<byte> := [IAC, SB, OPT_COM_PORT, 0, IAC]
  const SECOND: seq<byte> := [SE] + Print(Repeat(QUESTION, 15) + [REFUSAL])
  const HALF := Frame(InSbIac, 0, [OPT_COM_PORT, 0], false)

  lemma HalfRead()
    ensures FrameRun(NEW_FRAME, FIRST) == (HALF, [])
  {
    hide FrameRun;
    Four(NEW_FRAME, IAC, SB, OPT_COM_PORT, 0);
    FrameRunLast(NEW_FRAME, [IAC, SB, OPT_COM_PORT, 0], IAC);
    assert [IAC, SB, OPT_COM_PORT, 0] + [IAC] == FIRST;
    assert [] + [OPT_COM_PORT] + [0] == [OPT_COM_PORT, 0];
    var none: seq<Token> := [];
    assert none + none + none + none == none && none + none == none;
  }

  lemma SecondRead()
    ensures |SECOND| == SAFE_READ + 1
    ensures FrameRun(HALF, SECOND).1 == Repeat(QUESTION_TOKEN, 16) + [Command(DONT, OPT_BINARY)]
    ensures NoVendor(FrameRun(HALF, SECOND).1)
  {
    hide FrameRun;
    hide FrameStep;
    hide PrintItem;
    var items := Repeat(QUESTION, 15);
    QuestionsPrinted(15);
    RepeatIs(QUESTION, 15);
    RepeatIs(QUESTION_TOKEN, 15);
    RepeatIs(QUESTION_TOKEN, 16);
    PrefixOfMore(items, REFUSAL);
    RefusalPrinted();
    SecondStarts();
    PrintParses(FrameRun(HALF, [SE]).0, items + [REFUSAL]);
    FrameRunConcat(HALF, [SE], Print(items + [REFUSAL]));
    assert [QUESTION_TOKEN] + (Repeat(QUESTION_TOKEN, 15) + [Command(DONT, OPT_BINARY)])
        == Repeat(QUESTION_TOKEN, 16) + [Command(DONT, OPT_BINARY)];
  }

  lemma RefusalPrinted()
    ensures |PrintItem(REFUSAL)| == 3
  {
  }

  lemma SecondStarts()
    ensures FrameRun(HALF, [SE]).1 == [QUESTION_TOKEN] && FrameRun(HALF, [SE]).0.st.InData?
  {
    hide FrameRun;
    One(HALF, SE);
  }

  lemma SecondHandled(s: Session, modem: byte)
    requires OPT_BINARY in s.we
    ensures var (s', e) := HandleAll(s, FrameRun(HALF, SECOND).1, modem);
            && s' == s.(we := s.we - {OPT_BINARY}) && e.data == []
            && e.replies == Repeat(ANSWER, 16) + [Announce(WONT, OPT_BINARY)]
  {
    hide FrameRun;
    hide HandleAll;
    hide Handle;
    hide Repeat;
    RefusalHandled(s, modem);
    SecondRead();
    QuestionsAnswered(s, 16, modem);
    HandleLast(s, Repeat(QUESTION_TOKEN, 16), Command(DONT, OPT_BINARY), modem);
    var none: seq<byte> := [];
    assert none + none == none;
  }

  lemma RefusalHandled(s: Session, modem: byte)
    requires OPT_BINARY in s.we
    ensures Handle(s, Command(DONT, OPT_BINARY), modem)
            == (s.(we := s.we - {OPT_BINARY}), Effect([], [Announce(WONT, OPT_BINARY)], false))
  {
    assert OPT_BINARY in s.we * {OPT_BINARY};
  }

  lemma SecondCut()
    ensures var full := RenderAll(Repeat(ANSWER, 16) + [Announce(WONT, OPT_BINARY)]);
            |full| == 259 && Rfc2217.Fill([], full, REPLY_SIZE) == RenderAll(Repeat(ANSWER, 16))
  {
    AnswersRendered(16);
    PrefixOfMore(Repeat(ANSWER, 16), Announce(WONT, OPT_BINARY));
  }

  lemma NothingRead(s: Session, modem: byte)
    ensures HandleAll(s, [], modem) == (s, NO_EFFECT) && RenderAll([]) == [] && Rfc2217.Fill([], [], REPLY_SIZE) == []
    ensures NoVendor([])
  {
  }

  lemma AnswersSaid(f: Frame)
    requires f.st.InData?
    ensures var (f', ts) := FrameRun(f, RenderAll(GREETING) + RenderAll(Repeat(ANSWER, 16)));
            f'.st.InData? && WeSaid(Announced(ts), OPT_BINARY) == [true]
  {
    hide FrameRun;
    hide WellFormed;
    hide RenderAll;
    hide WeSaid;
    hide TheySaid;
    hide Announced;
    hide Announcements;
    hide Known;
    var rs := GREETING + Repeat(ANSWER, 16);
    AnswersRendered(16);
    GreetingWellFormed();
    JoinedReplies(GREETING, Repeat(ANSWER, 16));
    RenderAllConcat(GREETING, Repeat(ANSWER, 16));
    RenderAllIsPrint(rs);
    AllSayable(rs);
    PrintParses(f, ReplyItems(rs));
    RepliesAnnounced(rs);
    AnnouncementsJoin(GREETING, Repeat(ANSWER, 16));
    assert Announcements(GREETING) + [] == Announcements(GREETING);
    OnlyAnnouncementsCount(GREETING, OPT_BINARY);
    SaidOfGreeting(OPT_BINARY);
  }

  lemma FirstTurn(modem: byte)
    ensures StepOf(Start([]), Received(FIRST, modem, true)) == Turn(Start([]).(frame := HALF), [], [], [], [], [])
    ensures Fits(Start([]), Received(FIRST, modem, true)) && NotVendor(Start([]), Received(FIRST, modem, true))
  {
    hide FrameRun;
    hide HandleAll;
    hide RenderAll;
    hide Rfc2217.Fill;
    hide NoVendor;
    HalfRead();
    NothingRead(Start([]).session, modem);
  }

  lemma SecondTurn(c: Client, modem: byte)
    requires c.reader.at <= |c.reader.history| && c.frame == HALF && OPT_BINARY in c.session.we
    ensures var e := Received(SECOND, modem, true);
            var t := StepOf(c, e);
            && t.sent == RenderAll(Repeat(ANSWER, 16)) && t.client.session.we == c.session.we - {OPT_BINARY}
            && !Fits(c, e) && NotVendor(c, e)
  {
    hide FrameRun;
    hide HandleAll;
    hide RenderAll;
    hide Rfc2217.Fill;
    hide NoVendor;
    hide Repeat;
    SecondRead();
    SecondHandled(c.session, modem);
    SecondCut();
  }

  // A read of one byte more can lose an announcement whole: the client is left believing that the option is on, while
  // the server has turned it off.
  lemma LostAnnouncement(modem: byte, f: Frame)
    requires f.st.InData?
    ensures var events := [Received(FIRST, modem, true), Received(SECOND, modem, true)];
            var t := Run([], events);
            && |SECOND| == SAFE_READ + 1 && NeverVendor([], events) && !AllFit([], events)
            && WeSaid(Announced(FrameRun(f, t.sent).1), OPT_BINARY) == [true] && OPT_BINARY !in t.client.session.we
            && FrameRun(f, t.sent).0.st.InData?
  {
    hide FrameRun;
    hide RenderAll;
    hide WeSaid;
    hide Announced;
    hide StepOf;
    hide Fits;
    hide NotVendor;
    hide Repeat;
    var e1, e2 := Received(FIRST, modem, true), Received(SECOND, modem, true);
    SecondRead();
    FirstTurn(modem);
    SecondTurn(Start([]).(frame := HALF), modem);
    TwoTurns(e1, e2);
    assert RenderAll(GREETING) + [] == RenderAll(GREETING);
    AnswersSaid(f);
  }

  lemma TwoTurns(e1: Event, e2: Event)
    ensures var t1 := StepOf(Start([]), e1);
            t1.client.reader.at <= |t1.client.reader.history| ==>
              var t2 := StepOf(t1.client, e2);
              && Run([], [e1, e2]).client == t2.client
              && Run([], [e1, e2]).sent == RenderAll(GREETING) + t1.sent + t2.sent
              && (AllFit([], [e1, e2]) <==> Fits(Start([]), e1) && Fits(t1.client, e2))
              && (NeverVendor([], [e1, e2]) <==> NotVendor(Start([]), e1) && NotVendor(t1.client, e2))
  {
    hide RenderAll;
    hide StepOf;
    hide Fits;
    hide NotVendor;
    assert [e1][..0] == [] && [e1, e2][..1] == [e1];
    assert Run([], []).client == Start([]);
    assert Run([], [e1]).client == StepOf(Start([]), e1).client;
    assert AllFit([], []) && NeverVendor([], []);
    assert AllFit([], [e1]) <==> Fits(Start([]), e1);
    assert NeverVendor([], [e1]) <==> NotVendor(Start([]), e1);
  }

  // ----- What the switch says -----

  lemma {:induction false} ActRunConcat(e: Echo, a: seq<Act>, b: seq<Act>)
    ensures var (e1, p1) := ActRun(e, a);
            var (e2, p2) := ActRun(e1, b);
            ActRun(e, a + b) == (e2, p1 + p2)
  {
    hide ActStep;
    var (e1, p1) := ActRun(e, a);
    if b == [] {
      assert a + b == a && p1 + [] == p1;
    } else {
      var n := |b| - 1;
      ActRunConcat(e, a, b[..n]);
      assert (a + b)[..|a + b| - 1] == a + b[..n];
      var (e2, p2) := ActRun(e1, b[..n]);
      assert p1 + p2 + ActStep(e2, b[n]).1 == p1 + (p2 + ActStep(e2, b[n]).1);
    }
  }

  lemma {:induction false} SaidConcat(a: seq<Act>, b: seq<Act>)
    ensures Said(a + b) == Said(a) + Said(b)
  {
    if b == [] {
      assert a + b == a;
    } else {
      SaidConcat(a, b[..|b| - 1]);
      assert (a + b)[..|a + b| - 1] == a + b[..|b| - 1];
    }
  }

  lemma OneAct(e: Echo, a: Act)
    ensures ActRun(e, [a]) == ActStep(e, a) && Said([a]) == if a.Says? then a.bytes else []
  {
    hide ActStep;
    assert [a][..0] == [];
    assert ActRun(e, []) == (e, []) && Said([]) == [];
    assert [] + ActStep(e, a).1 == ActStep(e, a).1;
  }

  // Typing makes the filter wait, and lets nothing out.
  lemma {:induction false} TypingWaits(line: seq<byte>, echo: Echo, data: seq<byte>)
    ensures var t := TypeAll(line, echo, data);
            var (e, ps) := ActRun(echo, t.acts);
            e == t.echo && PassedBytes(ps) == [] && Said(t.acts) == []
  {
    hide Asks;
    hide ActRun;
    hide ActStep;
    hide Said;
    hide PassedBytes;
    if data == [] {
      NoActs(echo);
    } else {
      var n := |data| - 1;
      TypingWaits(line, echo, data[..n]);
      var t := TypeAll(line, echo, data[..n]);
      var input := TypeByte(t.line, data[n]).1;
      if input >= 0 {
        var a := Expects(input);
        ActRunConcat(echo, t.acts, [a]);
        SaidConcat(t.acts, [a]);
        OneAct(t.echo, a);
        WaitPassesNothing(t.echo, input);
        EchoFilter.PiecesJoin(ActRun(echo, t.acts).1, ActStep(t.echo, a).1);
      }
    }
  }

  lemma NoActs(e: Echo)
    ensures ActRun(e, []) == (e, []) && Said([]) == [] && PassedBytes([]) == []
  {
  }

  lemma WaitPassesNothing(e: Echo, n: nat)
    ensures PassedBytes(ActStep(e, Expects(n)).1) == []
  {
    OnePiece(Forgotten(e.hold));
  }

  // A turn does to the filter what its acts do, says as data what the filter lets out, and the acts say what came from
  // the tap
  predicate Relays(echo: Echo, got: seq<byte>, t: Turn) {
    var (e, ps) := ActRun(echo, t.acts);
    e == t.client.echo && DataOf(Meaning(t.items)) == PassedBytes(ps) && t.client.reader.got == got + Said(t.acts)
  }

  lemma {:induction false} DataJoin(a: seq<Token>, b: seq<Token>)
    ensures DataOf(a + b) == DataOf(a) + DataOf(b)
  {
    if b == [] {
      assert a + b == a;
    } else {
      DataJoin(a, b[..|b| - 1]);
      assert (a + b)[..|a + b| - 1] == a + b[..|b| - 1];
    }
  }

  lemma {:induction false} TextIsData(bytes: seq<byte>)
    ensures DataOf(DataTokens(bytes)) == bytes
  {
    if bytes != [] {
      var n := |bytes| - 1;
      TextIsData(bytes[..n]);
      assert DataTokens(bytes)[..n] == DataTokens(bytes[..n]);
    }
  }

  lemma {:induction false} RepliesAreNoData(rs: seq<Reply>)
    ensures DataOf(Meaning(ReplyItems(rs))) == []
  {
    hide ItemTokens;
    hide ReplyItem;
    hide DataOf;
    if rs == [] {
      NoData();
    } else {
      var n := |rs| - 1;
      RepliesAreNoData(rs[..n]);
      ReplyItemsAt(rs);
      ReplyItemsAt(rs[..n]);
      assert ReplyItems(rs)[..n] == ReplyItems(rs[..n]);
      ReplyIsNoData(rs[n]);
      DataJoin(Meaning(ReplyItems(rs[..n])), ItemTokens(ReplyItem(rs[n])));
    }
  }

  lemma NoData()
    ensures DataOf([]) == []
  {
  }

  lemma ReplyIsNoData(r: Reply)
    ensures DataOf(ItemTokens(ReplyItem(r))) == []
  {
    var ts := ItemTokens(ReplyItem(r));
    assert DataOf(ts[..0]) == [];
  }

  lemma QuietRelays(c: Client, c': Client, rs: seq<Reply>)
    requires c'.echo == c.echo && c'.reader.got == c.reader.got
    ensures Relays(c.echo, c.reader.got, Answered(c', rs, []))
  {
    hide Meaning;
    hide DataOf;
    hide RenderAll;
    RepliesAreNoData(rs);
    NoActs(c.echo);
  }

  lemma TypingRelays(c: Client, c': Client, rs: seq<Reply>, line: seq<byte>, data: seq<byte>)
    requires c'.echo == TypeAll(line, c.echo, data).echo && c'.reader == c.reader
    ensures Relays(c.echo, c.reader.got, Answered(c', rs, TypeAll(line, c.echo, data).acts))
  {
    hide Meaning;
    hide DataOf;
    hide RenderAll;
    hide TypeAll;
    hide ActRun;
    hide Said;
    RepliesAreNoData(rs);
    TypingWaits(line, c.echo, data);
  }

  lemma TextRelays(c: Client, got: seq<byte>, a: Act)
    requires c.reader.got == got + if a.Says? then a.bytes else []
    ensures Relays(c.echo, got, Spoken(c, a))
  {
    hide Meaning;
    hide DataOf;
    hide Escape;
    hide ActStep;
    hide ActRun;
    hide PassedBytes;
    hide Said;
    var text := PassedBytes(ActStep(c.echo, a).1);
    PrintOne(Text(text));
    TextIsData(text);
    OneAct(c.echo, a);
  }

  lemma StepRelays(c: Client, e: Event)
    requires c.reader.at <= |c.reader.history|
    ensures Relays(c.echo, c.reader.got, StepOf(c, e))
  {
    hide Relays;
    hide Serve;
    hide TypeAll;
    hide ActStep;
    hide PassedBytes;
    hide RenderAll;
    hide Escape;
    var t := StepOf(c, e);
    match e {
      case Received(input, modem, accepted) =>
        var data := Serve(c.frame, c.session, input, modem).2.data;
        if accepted || data == [] {
          TypingRelays(c, t.client, t.replies, c.line, data);
        } else {
          QuietRelays(c, t.client, t.replies);
        }
      case Looked(modem) => QuietRelays(c, t.client, t.replies);
      case TimedOut =>
        if c.echo.input < 0 {
          QuietRelays(c, t.client, []);
        } else {
          TextRelays(c, c.reader.got, GivesUp);
        }
      case Came(bytes) => QuietRelays(c, t.client, []);
      case Given =>
        TextRelays(c.(reader := RxTap.After(c.reader, RxTap.Asked(RAW_SIZE))), c.reader.got,
                   Says(NextBytes(c.reader)));
    }
  }

  lemma RelaysJoin(echo: Echo, a: Turn, b: Turn, t: Turn)
    requires Relays(echo, [], a) && Relays(a.client.echo, a.client.reader.got, b)
    requires t.client == b.client && t.items == a.items + b.items && t.acts == a.acts + b.acts
    ensures Relays(echo, [], t)
  {
    hide ActRun;
    hide PassedBytes;
    hide DataOf;
    hide Meaning;
    hide Said;
    hide AllTrue;
    hide AllBytes;
    hide Drops;
    hide Losses;
    hide Print;
    var (got, said, more) := (a.client.reader.got, Said(a.acts), Said(b.acts));
    assert [] + (said + more) == [] + said + more;
    PrintJoin(a.items, b.items);
    DataJoin(Meaning(a.items), Meaning(b.items));
    ActRunConcat(echo, a.acts, b.acts);
    SaidConcat(a.acts, b.acts);
    EchoFilter.PiecesJoin(ActRun(echo, a.acts).1, ActRun(a.client.echo, b.acts).1);
  }

  lemma {:induction false} RunRelays(history: seq<byte>, events: seq<Event>)
    ensures Relays(Echo(-1, [], 0), [], Run(history, events))
  {
    hide StepOf;
    hide Relays;
    if events == [] {
      GreetingRelays(history);
    } else {
      var n := |events| - 1;
      RunRelays(history, events[..n]);
      var before := Run(history, events[..n]);
      StepRelays(before.client, events[n]);
      RelaysJoin(Echo(-1, [], 0), before, StepOf(before.client, events[n]), Run(history, events));
    }
  }

  lemma GreetingRelays(history: seq<byte>)
    ensures Relays(Echo(-1, [], 0), [], Run(history, []))
  {
    hide DataOf;
    hide Meaning;
    RepliesAreNoData(GREETING);
    NoActs(Echo(-1, [], 0));
  }

  // What the tap sees of a connection
  function TapEvents(events: seq<Event>): seq<RxTap.Event> {
    if events == [] then []
    else
      var e := events[|events| - 1];
      TapEvents(events[..|events| - 1]) +
      (if e.Came? then [RxTap.Came(e.bytes)] else if e.Given? then [RxTap.Asked(RAW_SIZE)] else [])
  }

  lemma StepReads(c: Client, e: Event)
    requires c.reader.at <= |c.reader.history|
    ensures StepOf(c, e).client.reader ==
            if e.Came? then RxTap.After(c.reader, RxTap.Came(e.bytes))
            else if e.Given? then RxTap.After(c.reader, RxTap.Asked(RAW_SIZE)) else c.reader
  {
    hide Serve;
    hide TypeAll;
    hide ActStep;
    hide RenderAll;
    hide Escape;
  }

  lemma FollowMore(r: RxTap.Reader, events: seq<RxTap.Event>, e: RxTap.Event)
    requires r.at <= |r.history|
    ensures RxTap.Follow(r, events + [e]) == RxTap.After(RxTap.Follow(r, events), e)
    ensures events + [] == events
  {
    assert (events + [e])[..|events|] == events;
  }

  lemma {:induction false} RunFollows(history: seq<byte>, events: seq<Event>)
    ensures Run(history, events).client.reader == RxTap.Follow(Start(history).reader, TapEvents(events))
  {
    hide StepOf;
    hide RxTap.Follow;
    if events == [] {
      FollowNone(Start(history).reader);
    } else {
      var n, e := |events| - 1, events[|events| - 1];
      RunFollows(history, events[..n]);
      StepReads(Run(history, events[..n]).client, e);
      FollowMore(Start(history).reader, TapEvents(events[..n]),
                 if e.Came? then RxTap.Came(e.bytes) else RxTap.Asked(RAW_SIZE));
    }
  }

  lemma FollowNone(r: RxTap.Reader)
    requires r.at <= |r.history|
    ensures RxTap.Follow(r, []) == r
  {
  }

  // What became of what the filter was given
  function Pieces(t: Turn): seq<Piece> { ActRun(Echo(-1, [], 0), t.acts).1 }

  // All the client's reader was given came out of the filter, was dropped, was forgotten or is still held, in order;
  // each dropped line is only the number of an input asked about; and there are no more of either than were asked
  predicate Accounted(t: Turn) {
    var ps := Pieces(t);
    && AllBytes(ps) + t.client.echo.hold == t.client.reader.got && AllTrue(ps)
    && DropsAmong(ps, AskedNumbers(t.acts)) && Drops(ps) <= Waits(t.acts) && Losses(ps) <= Waits(t.acts)
  }

  lemma NoneForNothing(ps: seq<Piece>, numbers: set<int>)
    requires AllTrue(ps) && DropsAmong(ps, {-1, -1} + numbers)
    ensures DropsAmong(ps, numbers)
  {
    hide OnlyNumber;
    assert forall i :: 0 <= i < |ps| ==> PieceTrue(ps[i]);
  }

  lemma RunAccounted(history: seq<byte>, events: seq<Event>)
    ensures Accounted(Run(history, events))
  {
    hide Run;
    hide AllTrue;
    hide AllBytes;
    hide PassedBytes;
    hide Drops;
    hide Losses;
    hide Waits;
    hide ActRun;
    hide Said;
    hide DataOf;
    hide Meaning;
    hide DropsAmong;
    hide AskedNumbers;
    var t := Run(history, events);
    RunRelays(history, events);
    OnlyAskedDropped(Echo(-1, [], 0), t.acts);
    WaitsAccount(Echo(-1, [], 0), t.acts);
    NoneForNothing(Pieces(t), AskedNumbers(t.acts));
    assert [] + Said(t.acts) == Said(t.acts);
  }

  lemma RunMissesNothing(history: seq<byte>, events: seq<Event>)
    ensures var r := Run(history, events).client.reader;
            && (r.missed == 0 <==> RxTap.KeepsUp(Start(history).reader, TapEvents(events)))
            && (r.missed == 0 ==> history + r.got == r.history[..r.at])
  {
    hide Run;
    hide RxTap.KeepsUp;
    hide RxTap.Follow;
    RunFollows(history, events);
    RxTap.EveryByteOnce(Start(history).reader, TapEvents(events));
    var r := Run(history, events).client.reader;
    if r.missed == 0 {
      assert r.history[..|history|] == history;
      assert r.history[..|history|] + r.history[|history|..r.at] == r.history[..r.at];
    }
  }

  lemma RunPasses(history: seq<byte>, events: seq<Event>)
    ensures DataOf(Meaning(Run(history, events).items)) == PassedBytes(Pieces(Run(history, events)))
  {
    RunRelays(history, events);
  }

  // In every run, what the client reads as data is what the switch said since the connection began, without the lines
  // the filter dropped and the parts of lines it forgot, and without what it still holds, if no reply is cut or
  // misread; and the client misses nothing if and only if it keeps up with the tap.
  lemma SwitchIsHeard(history: seq<byte>, events: seq<Event>, f: Frame)
    requires f.st.InData?
    ensures AllFit(history, events) && NeverVendor(history, events) ==>
              DataOf(FrameRun(f, Run(history, events).sent).1) == PassedBytes(Pieces(Run(history, events)))
    ensures Accounted(Run(history, events))
    ensures var r := Run(history, events).client.reader;
            && (r.missed == 0 <==> RxTap.KeepsUp(Start(history).reader, TapEvents(events)))
            && (r.missed == 0 ==> history + r.got == r.history[..r.at])
  {
    hide *;
    ReadAsMeant(history, events, f);
    RunPasses(history, events);
    RunAccounted(history, events);
    RunMissesNothing(history, events);
  }
}
