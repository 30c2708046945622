// The login sessions: a table of four, of which the least recently used makes room
// (src/platform/esp32/main/auth.cpp). Times are in microseconds.
module Sessions {
  import opened Options

  const MAX_SESSIONS := 4
  const TOKEN_LENGTH := 64
  const IDLE := 43_200_000_000

  // A slot without a token is empty
  datatype Slot = Slot(token: string, lastUsed: nat)

  type Table = s: seq<Slot> | |s| == 4 witness [NO_SESSION, NO_SESSION, NO_SESSION, NO_SESSION]

  const NO_SESSION := Slot("", 0)
  const NO_SESSIONS: Table := [NO_SESSION, NO_SESSION, NO_SESSION, NO_SESSION]

  predicate Expired(s: Slot, now: nat) { now - s.lastUsed > IDLE }

  predicate Free(s: Slot, now: nat) { s.token == "" || Expired(s, now) }

  // The slot that a search from slot k on ends with, when `best` is the least recently used before
  function Pick(t: Table, now: nat, k: nat, best: nat): nat
    requires best < MAX_SESSIONS
    decreases MAX_SESSIONS - k
  {
    if k >= MAX_SESSIONS then best
    else if Free(t[k], now) then k
    else Pick(t, now, k + 1, if t[k].lastUsed < t[best].lastUsed then k else best)
  }

  function Created(t: Table, token: string, now: nat): Table {
    PickBound(t, now, 0, 0);
    t[Pick(t, now, 0, 0) := Slot(token, now)]
  }

  lemma {:induction false} PickBound(t: Table, now: nat, k: nat, best: nat)
    requires best < MAX_SESSIONS
    ensures Pick(t, now, k, best) < MAX_SESSIONS
    decreases MAX_SESSIONS - k
  {
    if k < MAX_SESSIONS && !Free(t[k], now) {
      PickBound(t, now, k + 1, if t[k].lastUsed < t[best].lastUsed then k else best);
    }
  }

  // The first slot from k on with this token, or 4
  function Find(t: Table, token: string, k: nat): (i: nat)
    requires k <= MAX_SESSIONS
    ensures k <= i <= MAX_SESSIONS
    ensures i < MAX_SESSIONS ==> t[i].token == token
    ensures forall j :: k <= j < i ==> t[j].token != token
    decreases MAX_SESSIONS - k
  {
    if k == MAX_SESSIONS || t[k].token == token then k else Find(t, token, k + 1)
  }

  // Checking a token: the table after it, and whether the token is accepted
  function Checked(t: Table, token: string, now: nat): (Table, bool) {
    var i := Find(t, token, 0);
    if |token| != TOKEN_LENGTH || i == MAX_SESSIONS then (t, false)
    else if Expired(t[i], now) then (t[i := t[i].(token := "")], false)
    else (t[i := t[i].(lastUsed := now)], true)
  }

  // The table without a token's sessions
  function Without(t: Table, token: string): Table {
    seq(MAX_SESSIONS, i requires 0 <= i < MAX_SESSIONS => if t[i].token == token then t[i].(token := "") else t[i])
  }

  function Emptied(t: Table): Table {
    seq(MAX_SESSIONS, i requires 0 <= i < MAX_SESSIONS => t[i].(token := ""))
  }

  class SessionTable {
    const slots: array<Slot>

    ghost predicate Valid() { slots.Length == MAX_SESSIONS }

    constructor ()
      ensures Valid() && fresh(slots) && slots[..] == NO_SESSIONS
    {
      slots := new Slot[MAX_SESSIONS](_ => NO_SESSION);
    }

    // The new session goes where the search points
    method Create(token: string, now: nat)
      requires Valid()
      modifies slots
      ensures slots[..] == Created(old(slots[..]), token, now)
    {
      var slot, i := 0, 0;
      while i < MAX_SESSIONS
        invariant 0 <= i <= MAX_SESSIONS && 0 <= slot < MAX_SESSIONS
        invariant Pick(slots[..], now, i, slot) == Pick(slots[..], now, 0, 0)
      {
        if Free(slots[i], now) {
          slot := i;
          break;
        }
        if slots[i].lastUsed < slots[slot].lastUsed {
          slot := i;
        }
        i := i + 1;
      }
      assert slot == Pick(slots[..], now, 0, 0);
      slots[slot] := Slot(token, now);
    }

    // An accepted session is extended, an expired one ended
    method Check(token: string, now: nat) returns (valid: bool)
      requires Valid()
      modifies slots
      ensures (slots[..], valid) == Checked(old(slots[..]), token, now)
    {
      valid := false;
      if |token| != TOKEN_LENGTH {
        return;
      }
      var i := 0;
      while i < MAX_SESSIONS
        invariant 0 <= i <= MAX_SESSIONS && slots[..] == old(slots[..])
        invariant !valid && Find(slots[..], token, i) == Find(slots[..], token, 0)
      {
        if slots[i].token == token {
          if !Expired(slots[i], now) {
            slots[i] := slots[i].(lastUsed := now);
            valid := true;
          } else {
            slots[i] := slots[i].(token := "");
          }
          return;
        }
        i := i + 1;
      }
    }

    method End(token: string)
      requires Valid()
      modifies slots
      ensures slots[..] == Without(old(slots[..]), token)
    {
      for i := 0 to MAX_SESSIONS
        invariant forall j :: 0 <= j < i ==> slots[j] == Without(old(slots[..]), token)[j]
        invariant forall j :: i <= j < MAX_SESSIONS ==> slots[j] == old(slots[j])
      {
        if slots[i].token == token {
          slots[i] := slots[i].(token := "");
        }
      }
    }

    method EndAll()
      requires Valid()
      modifies slots
      ensures slots[..] == Emptied(old(slots[..]))
    {
      for i := 0 to MAX_SESSIONS
        invariant forall j :: 0 <= j < i ==> slots[j] == Emptied(old(slots[..]))[j]
        invariant forall j :: i <= j < MAX_SESSIONS ==> slots[j] == old(slots[j])
      {
        slots[i] := slots[i].(token := "");
      }
    }
  }

  // The slot is in use, and slot `best` has not been used after it
  predicate Newer(t: Table, now: nat, best: nat, i: nat)
    requires best < MAX_SESSIONS && i < MAX_SESSIONS
  {
    !Free(t[i], now) && t[best].lastUsed <= t[i].lastUsed
  }

  // The slot that makes room is free, or every slot is in use and none was used longer ago.
  lemma {:induction false} PickIs(t: Table, now: nat, k: nat, best: nat)
    requires best < MAX_SESSIONS && k <= MAX_SESSIONS
    requires forall i :: 0 <= i < k ==> Newer(t, now, best, i)
    ensures var slot := Pick(t, now, k, best);
            && slot < MAX_SESSIONS
            && (Free(t[slot], now) || forall i :: 0 <= i < MAX_SESSIONS ==> Newer(t, now, slot, i))
    decreases MAX_SESSIONS - k
  {
    hide Free;
    if k < MAX_SESSIONS && !Free(t[k], now) {
      var next := if t[k].lastUsed < t[best].lastUsed then k else best;
      forall i | 0 <= i < k + 1
        ensures Newer(t, now, next, i)
      {
        if i < k {
          assert Newer(t, now, best, i);
        }
      }
      PickIs(t, now, k + 1, next);
    }
  }

  // ----- Whole runs -----

  datatype Call = Login(token: string, now: nat) | Request(token: string, now: nat) | Logout(token: string) | LogoutAll

  // What happened: a session was used (created, or accepted), a token was refused, sessions were ended
  datatype Event = Used(token: string, now: nat) | Refused(token: string, now: nat) | Ended(token: string) | AllEnded

  function Step(t: Table, c: Call): (Table, Event) {
    match c
    case Login(token, now) => (Created(t, token, now), Used(token, now))
    case Request(token, now) =>
      var (t', ok) := Checked(t, token, now);
      (t', if ok then Used(token, now) else Refused(token, now))
    case Logout(token) => (Without(t, token), Ended(token))
    case LogoutAll => (Emptied(t), AllEnded)
  }

  function Run(calls: seq<Call>): (Table, seq<Event>) {
    if calls == [] then (NO_SESSIONS, [])
    else
      var (t, log) := Run(calls[..|calls| - 1]);
      var (t', e) := Step(t, calls[|calls| - 1]);
      (t', log + [e])
  }

  // When a session was last used, if it has been neither refused nor ended since
  function LastUse(log: seq<Event>, token: string): Option<nat> {
    if log == [] then None
    else
      match log[|log| - 1]
      case Used(t, now) => if t == token then Some(now) else LastUse(log[..|log| - 1], token)
      case Refused(t, _) => if t == token then None else LastUse(log[..|log| - 1], token)
      case Ended(t) => if t == token then None else LastUse(log[..|log| - 1], token)
      case AllEnded => None
  }

  // The other sessions used at or after a time
  function OthersSince(log: seq<Event>, token: string, since: nat): set<string> {
    if log == [] then {}
    else
      var before, e := OthersSince(log[..|log| - 1], token, since), log[|log| - 1];
      if e.Used? && e.token != token && e.now >= since then before + {e.token} else before
  }

  // The time of the last event that has one
  function Latest(log: seq<Event>): nat {
    if log == [] then 0
    else if log[|log| - 1].Used? || log[|log| - 1].Refused? then log[|log| - 1].now
    else Latest(log[..|log| - 1])
  }

  // The clock does not run backwards, and a new token is none of those in use
  predicate Proper(calls: seq<Call>) {
    calls != [] ==>
      var log, c := Run(calls[..|calls| - 1]).1, calls[|calls| - 1];
      && Proper(calls[..|calls| - 1])
      && (c.Login? || c.Request? ==> c.now >= Latest(log))
      && (c.Login? ==> |c.token| == TOKEN_LENGTH && LastUse(log, c.token).None?)
  }

  // What a slot holds is true
  predicate SlotTrue(s: Slot, log: seq<Event>) {
    s.token != "" ==> |s.token| == TOKEN_LENGTH && LastUse(log, s.token) == Some(s.lastUsed)
  }

  predicate InTable(t: Table, token: string) { exists i :: 0 <= i < MAX_SESSIONS && t[i].token == token }

  // A session that is gone has expired, or at least four others have been used since
  predicate Kept(t: Table, log: seq<Event>, token: string) {
    var u := LastUse(log, token);
    || u.None?
    || InTable(t, token)
    || Latest(log) - u.value > IDLE
    || |OthersSince(log, token, u.value)| >= MAX_SESSIONS
  }

  ghost predicate Inv(t: Table, log: seq<Event>) {
    && (forall i :: 0 <= i < MAX_SESSIONS ==> SlotTrue(t[i], log) && t[i].lastUsed <= Latest(log))
    && Distinct(t)
    && (forall token: string :: token != "" ==> Kept(t, log, token))
    && LastUse(log, "").None?
  }

  // ----- One step -----

  lemma LastUseMore(log: seq<Event>, e: Event, token: string)
    ensures LastUse(log + [e], token) ==
            if e.AllEnded? then None
            else if e.token != token then LastUse(log, token)
            else if e.Used? then Some(e.now) else None
  {
  }

  lemma OthersMore(log: seq<Event>, e: Event, token: string, since: nat)
    ensures OthersSince(log + [e], token, since) ==
            OthersSince(log, token, since) + (if e.Used? && e.token != token && e.now >= since then {e.token} else {})
  {
  }

  lemma LatestMore(log: seq<Event>, e: Event)
    ensures Latest(log + [e]) == if e.Used? || e.Refused? then e.now else Latest(log)
  {
  }

  lemma {:induction false} UsedIsOther(log: seq<Event>, other: string, token: string, since: nat)
    requires other != token && LastUse(log, other).Some? && LastUse(log, other).value >= since
    ensures other in OthersSince(log, token, since)
  {
    var e := log[|log| - 1];
    if !(e.Used? && e.token == other) {
      UsedIsOther(log[..|log| - 1], other, token, since);
    }
  }

  lemma {:induction false} SubsetIsSmaller<T>(a: set<T>, b: set<T>)
    requires a <= b
    ensures |a| <= |b|
  {
    if a != {} {
      var x :| x in a;
      SubsetIsSmaller(a - {x}, b - {x});
    }
  }

  // A session that has not been refused or ended by the event stays as it stood, if it stays in the table.
  lemma KeptMore(t: Table, t': Table, log: seq<Event>, e: Event, token: string)
    requires Kept(t, log, token) && !e.AllEnded? && e.token != token
    requires InTable(t, token) ==> InTable(t', token)
    requires e.Used? || e.Refused? ==> e.now >= Latest(log)
    ensures Kept(t', log + [e], token)
  {
    hide InTable;
    LastUseMore(log, e, token);
    LatestMore(log, e);
    var u := LastUse(log, token);
    if u.Some? {
      OthersMore(log, e, token, u.value);
      SubsetIsSmaller(OthersSince(log, token, u.value), OthersSince(log + [e], token, u.value));
    }
  }

  // The session that makes room has expired, or there are four others that were used since.
  lemma EvictedIsKept(t: Table, log: seq<Event>, x: string, now: nat)
    requires Inv(t, log) && now >= Latest(log) && |x| == TOKEN_LENGTH && LastUse(log, x).None?
    requires t[Pick(t, now, 0, 0)].token != ""
    ensures Kept(Created(t, x, now), log + [Used(x, now)], t[Pick(t, now, 0, 0)].token)
  {
    hide OthersSince;
    hide InTable;
    hide LastUse;
    hide Latest;
    hide Pick;
    PickIs(t, now, 0, 0);
    var slot := Pick(t, now, 0, 0);
    var token, u, e := t[slot].token, t[slot].lastUsed, Used(x, now);
    assert SlotTrue(t[slot], log);
    LastUseMore(log, e, token);
    LatestMore(log, e);
    if !Free(t[slot], now) {
      var others := OthersSince(log + [e], token, u);
      var tokens := {t[0].token, t[1].token, t[2].token, t[3].token};
      forall i | 0 <= i < MAX_SESSIONS
        ensures t[i].token != "" && t[i].token != x
        ensures i != slot ==> t[i].token in others
      {
        assert Newer(t, now, slot, i) && SlotTrue(t[i], log);
        LastUseMore(log, e, t[i].token);
        if i != slot {
          UsedIsOther(log + [e], t[i].token, token, u);
        }
      }
      OthersMore(log, e, token, u);
      FourAndOne(t, slot, x);
      SubsetIsSmaller(tokens - {token} + {x}, others);
    }
  }

  lemma FourAndOne(t: Table, slot: nat, x: string)
    requires slot < MAX_SESSIONS && x != t[slot].token
    requires forall i :: 0 <= i < MAX_SESSIONS && i != slot ==> t[i].token != x
    requires forall i, j :: 0 <= i < j < MAX_SESSIONS ==> t[i].token != t[j].token
    ensures |{t[0].token, t[1].token, t[2].token, t[3].token} - {t[slot].token} + {x}| == MAX_SESSIONS
  {
  }

  lemma SlotMore(s: Slot, log: seq<Event>, e: Event)
    requires SlotTrue(s, log) && s.lastUsed <= Latest(log)
    requires e.Used? || e.Refused? ==> e.now >= Latest(log)
    ensures s.token == "" || (!e.AllEnded? && e.token != s.token) ==> SlotTrue(s, log + [e])
    ensures s.lastUsed <= Latest(log + [e])
  {
  }

  lemma LoginKeeps(t: Table, log: seq<Event>, x: string, now: nat)
    requires Inv(t, log) && now >= Latest(log) && |x| == TOKEN_LENGTH && LastUse(log, x).None?
    ensures Inv(Created(t, x, now), log + [Used(x, now)])
  {
    hide LastUse;
    hide Latest;
    hide OthersSince;
    hide Pick;
    hide Kept;
    PickBound(t, now, 0, 0);
    var slot, t', e := Pick(t, now, 0, 0), Created(t, x, now), Used(x, now);
    LastUseMore(log, e, x);
    LastUseMore(log, e, "");
    LatestMore(log, e);
    forall i | 0 <= i < MAX_SESSIONS
      ensures SlotTrue(t'[i], log + [e]) && t'[i].lastUsed <= Latest(log + [e])
      ensures t[i].token != x
    {
      assert SlotTrue(t[i], log);
      SlotMore(t[i], log, e);
    }
    forall token: string | token != ""
      ensures Kept(t', log + [e], token)
    {
      if token == x {
        assert t'[slot].token == x;
        InTableIsKept(t', log + [e], x);
      } else if token == t[slot].token {
        EvictedIsKept(t, log, x, now);
      } else {
        assert forall i :: 0 <= i < MAX_SESSIONS && t[i].token == token ==> t'[i].token == token;
        KeptMore(t, t', log, e, token);
      }
    }
  }

  lemma InTableIsKept(t: Table, log: seq<Event>, token: string)
    requires InTable(t, token)
    ensures Kept(t, log, token)
  {
  }

  lemma NotUsedIsKept(t: Table, log: seq<Event>, token: string)
    requires LastUse(log, token).None?
    ensures Kept(t, log, token)
  {
  }

  lemma RequestKeeps(t: Table, log: seq<Event>, x: string, now: nat)
    requires Inv(t, log) && now >= Latest(log)
    ensures var (t', ok) := Checked(t, x, now); Inv(t', log + [if ok then Used(x, now) else Refused(x, now)])
  {
    hide LastUse;
    hide Latest;
    hide OthersSince;
    hide Kept;
    hide Find;
    var (t', ok) := Checked(t, x, now);
    var e := if ok then Used(x, now) else Refused(x, now);
    var at := Find(t, x, 0);
    LastUseMore(log, e, x);
    LastUseMore(log, e, "");
    LatestMore(log, e);
    assert at < MAX_SESSIONS ==> t[at].token == x;
    forall i | 0 <= i < MAX_SESSIONS
      ensures SlotTrue(t'[i], log + [e]) && t'[i].lastUsed <= Latest(log + [e])
    {
      assert SlotTrue(t[i], log);
      SlotMore(t[i], log, e);
    }
    forall token: string | token != ""
      ensures Kept(t', log + [e], token)
    {
      if token == x && ok {
        assert t'[at].token == x;
        InTableIsKept(t', log + [e], x);
      } else if token == x {
        NotUsedIsKept(t', log + [e], x);
      } else {
        assert forall i :: 0 <= i < MAX_SESSIONS && t[i].token == token ==> t'[i].token == token;
        KeptMore(t, t', log, e, token);
      }
    }
  }

  lemma LogoutKeeps(t: Table, log: seq<Event>, x: string)
    requires Inv(t, log)
    ensures Inv(Without(t, x), log + [Ended(x)])
  {
    hide LastUse;
    hide Latest;
    hide OthersSince;
    hide Kept;
    var t', e := Without(t, x), Ended(x);
    LastUseMore(log, e, x);
    LastUseMore(log, e, "");
    LatestMore(log, e);
    forall i | 0 <= i < MAX_SESSIONS
      ensures SlotTrue(t'[i], log + [e]) && t'[i].lastUsed <= Latest(log + [e])
    {
      assert SlotTrue(t[i], log);
      SlotMore(t[i], log, e);
    }
    forall token: string | token != ""
      ensures Kept(t', log + [e], token)
    {
      if token == x {
        NotUsedIsKept(t', log + [e], x);
      } else {
        assert forall i :: 0 <= i < MAX_SESSIONS && t[i].token == token ==> t'[i].token == token;
        KeptMore(t, t', log, e, token);
      }
    }
  }

  lemma LogoutAllKeeps(t: Table, log: seq<Event>)
    requires Inv(t, log)
    ensures Inv(Emptied(t), log + [AllEnded])
  {
  }

  lemma {:induction false} RunKeeps(calls: seq<Call>)
    requires Proper(calls)
    ensures var (t, log) := Run(calls); Inv(t, log)
  {
    hide Inv;
    hide Step;
    if calls == [] {
      NothingYet();
    } else {
      var n := |calls| - 1;
      RunKeeps(calls[..n]);
      var (t, log) := Run(calls[..n]);
      StepKeeps(t, log, calls[n]);
    }
  }

  lemma NothingYet()
    ensures Inv(NO_SESSIONS, [])
  {
  }

  lemma StepKeeps(t: Table, log: seq<Event>, c: Call)
    requires Inv(t, log)
    requires c.Login? || c.Request? ==> c.now >= Latest(log)
    requires c.Login? ==> |c.token| == TOKEN_LENGTH && LastUse(log, c.token).None?
    ensures var (t', e) := Step(t, c); Inv(t', log + [e])
  {
    hide Inv;
    match c {
      case Login(token, now) => LoginKeeps(t, log, token, now);
      case Request(token, now) => RequestKeeps(t, log, token, now);
      case Logout(token) => LogoutKeeps(t, log, token);
      case LogoutAll => LogoutAllKeeps(t, log);
    }
  }

  // After any run: a token is accepted only if its session was used within the last twelve hours and has
  // been neither refused nor ended since; and such a token is refused only if at least four other
  // sessions have been used since.
  lemma SessionAnswers(calls: seq<Call>, token: string, now: nat)
    requires Proper(calls + [Request(token, now)])
    ensures var (t, log) := Run(calls);
            var ok, u := Checked(t, token, now).1, LastUse(log, token);
            && (ok ==> u.Some? && now - u.value <= IDLE)
            && (!ok && u.Some? && now - u.value <= IDLE ==> |OthersSince(log, token, u.value)| >= MAX_SESSIONS)
  {
    hide LastUse;
    hide Latest;
    hide OthersSince;
    assert (calls + [Request(token, now)])[..|calls|] == calls;
    RunKeeps(calls);
    var (t, log) := Run(calls);
    var at := Find(t, token, 0);
    if at < MAX_SESSIONS {
      assert SlotTrue(t[at], log);
    }
    if token != "" {
      assert Kept(t, log, token);
    }
  }

  // ----- A least-recently-used set of at most four sessions -----

  // The sessions in use at a time
  function Live(t: Table, now: nat): set<Slot> {
    set i | 0 <= i < MAX_SESSIONS && !Free(t[i], now) :: t[i]
  }

  function Unexpired(m: set<Slot>, now: nat): set<Slot> {
    set s | s in m && !Expired(s, now)
  }

  predicate Oldest(m: set<Slot>, v: Slot) { v in m && forall s :: s in m ==> v.lastUsed <= s.lastUsed }

  // What a call makes of the set, and the answer to it: a login finds room or takes that of a least recently
  // used session, a request is answered by whether the session is there, a logout ends what it names
  ghost predicate LruStep(m: set<Slot>, c: Call, e: Event, m': set<Slot>) {
    match c
    case Login(x, now) =>
      var u := Unexpired(m, now);
      && e == Used(x, now)
      && if |u| < MAX_SESSIONS then m' == u + {Slot(x, now)}
         else exists v :: Oldest(u, v) && m' == u - {v} + {Slot(x, now)}
    case Request(x, now) =>
      var u := Unexpired(m, now);
      if exists s :: s in u && s.token == x then
        e == Used(x, now) && m' == (set s | s in u && s.token != x) + {Slot(x, now)}
      else e == Refused(x, now) && m' == u
    case Logout(x) => e == Ended(x) && m' == set s | s in m && s.token != x
    case LogoutAll => e == AllEnded && m' == {}
  }

  // A run of the set that gives these answers and ends with these sessions
  ghost predicate LruRun(calls: seq<Call>, log: seq<Event>, m: set<Slot>) {
    if calls == [] then log == [] && m == {}
    else
      |log| == |calls| &&
        var n := |calls| - 1;
        exists m0 :: LruRun(calls[..n], log[..n], m0) && LruStep(m0, calls[n], log[n], m)
  }

  // What has expired stays so.
  lemma LiveLater(t: Table, before: nat, now: nat)
    requires before <= now
    ensures Unexpired(Live(t, before), now) == Live(t, now)
  {
    forall s: Slot
      ensures s in Unexpired(Live(t, before), now) <==> s in Live(t, now)
    {
      if s in Live(t, now) {
        var i :| 0 <= i < MAX_SESSIONS && !Free(t[i], now) && s == t[i];
        assert !Free(t[i], before);
      }
    }
  }

  predicate Distinct(t: Table) {
    forall i, j :: 0 <= i < j < MAX_SESSIONS && t[i].token != "" ==> t[i].token != t[j].token
  }

  // With a free slot the set is not full.
  lemma RoomLeft(t: Table, now: nat, slot: nat)
    requires slot < MAX_SESSIONS && Free(t[slot], now)
    ensures |Live(t, now)| < MAX_SESSIONS
  {
    var a, b, c := t[if slot == 0 then 1 else 0], t[if slot <= 1 then 2 else 1], t[if slot == 3 then 2 else 3];
    forall s | s in Live(t, now)
      ensures s in {a} + {b} + {c}
    {
      var i :| 0 <= i < MAX_SESSIONS && !Free(t[i], now) && s == t[i];
      assert i != slot;
    }
    assert |{a} + {b}| <= 2 && |{a} + {b} + {c}| <= 3;
    SubsetIsSmaller(Live(t, now), {a} + {b} + {c});
  }

  // With none it is.
  lemma NoRoom(t: Table, now: nat)
    requires Distinct(t) && forall i :: 0 <= i < MAX_SESSIONS ==> !Free(t[i], now)
    ensures |Live(t, now)| == MAX_SESSIONS
  {
    var four := {t[0]} + {t[1]} + {t[2]} + {t[3]};
    assert t[0].token != t[1].token && t[0].token != t[2].token && t[0].token != t[3].token;
    assert t[1].token != t[2].token && t[1].token != t[3].token && t[2].token != t[3].token;
    assert |{t[0]} + {t[1]}| == 2 && |{t[0]} + {t[1]} + {t[2]}| == 3 && |four| == 4;
    assert t[0] in Live(t, now) && t[1] in Live(t, now) && t[2] in Live(t, now) && t[3] in Live(t, now);
    assert Live(t, now) == four;
  }

  // A slot given to a session that is not in the table
  lemma LiveReplaced(t: Table, slot: nat, s: Slot, now: nat)
    requires slot < MAX_SESSIONS && !Free(s, now) && Distinct(t)
    ensures Live(t[slot := s], now) == (if Free(t[slot], now) then Live(t, now) else Live(t, now) - {t[slot]}) + {s}
  {
    var t' := t[slot := s];
    forall r: Slot
      ensures r in Live(t', now) <==> r == s || (r in Live(t, now) && r != t[slot])
      ensures Free(t[slot], now) ==> t[slot] !in Live(t, now)
    {
      if r in Live(t, now) && r != t[slot] {
        var i :| 0 <= i < MAX_SESSIONS && !Free(t[i], now) && r == t[i];
        assert t'[i] == r;
      }
      if r == s {
        assert t'[slot] == s;
      }
      if r in Live(t', now) && r != s {
        var i :| 0 <= i < MAX_SESSIONS && !Free(t'[i], now) && r == t'[i];
        assert i != slot && t[i] == r && r != t[slot];
      }
    }
  }

  lemma LoginIsLru(t: Table, log: seq<Event>, x: string, now: nat)
    requires Inv(t, log) && now >= Latest(log) && |x| == TOKEN_LENGTH
    ensures LruStep(Live(t, Latest(log)), Login(x, now), Used(x, now), Live(Created(t, x, now), now))
  {
    hide Pick;
    hide LastUse;
    hide Latest;
    hide Kept;
    hide Live;
    hide Unexpired;
    hide Oldest;
    PickBound(t, now, 0, 0);
    var slot := Pick(t, now, 0, 0);
    LiveLater(t, Latest(log), now);
    LiveReplaced(t, slot, Slot(x, now), now);
    if Free(t[slot], now) {
      RoomLeft(t, now, slot);
    } else {
      PickedIsOldest(t, now);
    }
  }

  lemma PickedIsOldest(t: Table, now: nat)
    requires Distinct(t) && Pick(t, now, 0, 0) < MAX_SESSIONS && !Free(t[Pick(t, now, 0, 0)], now)
    ensures Oldest(Live(t, now), t[Pick(t, now, 0, 0)]) && |Live(t, now)| == MAX_SESSIONS
  {
    hide Pick;
    PickIs(t, now, 0, 0);
    var slot := Pick(t, now, 0, 0);
    forall i | 0 <= i < MAX_SESSIONS
      ensures !Free(t[i], now) && t[slot].lastUsed <= t[i].lastUsed
    {
      assert Newer(t, now, slot, i);
    }
    NoRoom(t, now);
    assert t[slot] in Live(t, now);
  }

  lemma RequestIsLru(t: Table, log: seq<Event>, x: string, now: nat)
    requires Inv(t, log) && now >= Latest(log)
    ensures var (t', ok) := Checked(t, x, now);
            LruStep(Live(t, Latest(log)), Request(x, now), if ok then Used(x, now) else Refused(x, now), Live(t', now))
  {
    hide Find;
    hide LastUse;
    hide Latest;
    hide Kept;
    var (t', ok) := Checked(t, x, now);
    var at := Find(t, x, 0);
    var u := Live(t, now);
    LiveLater(t, Latest(log), now);
    forall i | 0 <= i < MAX_SESSIONS
      ensures t[i].token == x && t[i].token != "" ==> i == at && |x| == TOKEN_LENGTH
    {
      assert SlotTrue(t[i], log);
    }
    if ok {
      assert t[at] in u && t[at].token == x;
      LiveReplaced(t, at, t[at].(lastUsed := now), now);
      assert (set s | s in u && s.token != x) == u - {t[at]};
    } else {
      forall s | s in u
        ensures s.token != x
      {
        var i :| 0 <= i < MAX_SESSIONS && !Free(t[i], now) && s == t[i];
      }
      SameLive(t, t', now);
    }
  }

  lemma SameLive(t: Table, t': Table, now: nat)
    requires forall i :: 0 <= i < MAX_SESSIONS ==> t'[i] == t[i] || (Free(t'[i], now) && Free(t[i], now))
    ensures Live(t', now) == Live(t, now)
  {
    forall s: Slot
      ensures s in Live(t, now) <==> s in Live(t', now)
    {
      if s in Live(t, now) {
        var i :| 0 <= i < MAX_SESSIONS && !Free(t[i], now) && s == t[i];
        assert t'[i] == s;
      }
      if s in Live(t', now) {
        var i :| 0 <= i < MAX_SESSIONS && !Free(t'[i], now) && s == t'[i];
        assert t[i] == s;
      }
    }
  }

  lemma LogoutIsLru(t: Table, x: string, now: nat)
    ensures LruStep(Live(t, now), Logout(x), Ended(x), Live(Without(t, x), now))
    ensures LruStep(Live(t, now), LogoutAll, AllEnded, Live(Emptied(t), now))
  {
    var t' := Without(t, x);
    forall s: Slot
      ensures s in Live(t', now) <==> s in Live(t, now) && s.token != x
    {
      if s in Live(t, now) && s.token != x {
        var i :| 0 <= i < MAX_SESSIONS && !Free(t[i], now) && s == t[i];
        assert t'[i] == s;
      }
      if s in Live(t', now) {
        var i :| 0 <= i < MAX_SESSIONS && !Free(t'[i], now) && s == t'[i];
        assert t[i] == s;
      }
    }
  }

  lemma StepIsLru(t: Table, log: seq<Event>, c: Call)
    requires Inv(t, log)
    requires c.Login? || c.Request? ==> c.now >= Latest(log)
    requires c.Login? ==> |c.token| == TOKEN_LENGTH
    ensures var (t', e) := Step(t, c); LruStep(Live(t, Latest(log)), c, e, Live(t', Latest(log + [e])))
  {
    hide Inv;
    hide LruStep;
    hide Live;
    LatestMore(log, Step(t, c).1);
    match c {
      case Login(x, now) => LoginIsLru(t, log, x, now);
      case Request(x, now) => RequestIsLru(t, log, x, now);
      case Logout(x) => LogoutIsLru(t, x, Latest(log));
      case LogoutAll => LogoutIsLru(t, "", Latest(log));
    }
  }

  // In every run the table is a least-recently-used set of at most four sessions, answer by answer: what is in
  // it is accepted, what is not is refused, and only a login into a full set takes a session out.
  lemma {:induction false} TableIsLru(calls: seq<Call>)
    requires Proper(calls)
    ensures var (t, log) := Run(calls); LruRun(calls, log, Live(t, Latest(log)))
  {
    hide Inv;
    hide Step;
    hide LruStep;
    hide Live;
    if calls == [] {
      NoneLive();
    } else {
      var n := |calls| - 1;
      TableIsLru(calls[..n]);
      var (t, log) := Run(calls[..n]);
      RunKeeps(calls[..n]);
      LogLength(calls[..n]);
      StepIsLru(t, log, calls[n]);
      var (t', log') := Run(calls);
      assert log'[..n] == log;
      assert LruRun(calls[..n], log'[..n], Live(t, Latest(log)));
      assert LruStep(Live(t, Latest(log)), calls[n], log'[n], Live(t', Latest(log')));
    }
  }

  lemma NoneLive()
    ensures Live(NO_SESSIONS, 0) == {}
  {
  }

  lemma {:induction false} LogLength(calls: seq<Call>)
    ensures |Run(calls).1| == |calls|
  {
    hide Step;
    if calls != [] {
      LogLength(calls[..|calls| - 1]);
    }
  }
}
