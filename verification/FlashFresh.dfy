// A check only holds for the switch that was plugged in when it was made
// (src/platform/esp32/main/svs_flasher.cpp).
module FlashFresh {
  import opened Bytes
  import opened Flasher
  import opened FlashRuns
  import opened FlashSafety
  import opened Options

  // What was read on the current connection was read from the switch that is plugged in
  predicate ReadHere(s: State, connection: nat, boot: Identity) {
    && connection <= s.connections
    && (connection == s.connections && boot.tableRead && s.plugged.Some? && s.plugged.value < |s.chips| ==>
          boot == IdentityOf(s.chips[s.plugged.value]))
  }

  predicate TaskFresh(s: State, l: Local) {
    match l
    case CheckEnter(connection) => connection <= s.connections
    case CheckStore(connection, found) =>
      connection <= s.connections && (found.Some? ==> ReadHere(s, connection, found.value))
    case _ => true
  }

  predicate Fresh(s: State) {
    && (forall i :: 0 <= i < |s.running| ==> TaskFresh(s, s.running[i]))
    && (LastCheck(s.log).Some? ==> ReadHere(s, s.checkedConnection, s.checkedBoot))
  }

  // A step that leaves what each switch reveals, and plugs no other
  predicate SameSwitches(s: State, t: State) {
    && |t.chips| == |s.chips| && t.connections == s.connections && (t.plugged == s.plugged || t.plugged.None?)
    && forall c :: 0 <= c < |s.chips| ==> IdentityOf(t.chips[c]) == IdentityOf(s.chips[c])
  }

  lemma StaysRead(s: State, t: State, connection: nat, boot: Identity)
    requires ReadHere(s, connection, boot)
    requires SameSwitches(s, t) || t.connections > s.connections
    ensures ReadHere(t, connection, boot)
  {
    hide IdentityOf;
  }

  lemma SameIdentities(s: State, t: State)
    requires ChipsKept(s, t)
    ensures |t.chips| == |s.chips|
    ensures forall c :: 0 <= c < |s.chips| ==> IdentityOf(t.chips[c]) == IdentityOf(s.chips[c])
  {
    hide IdentityOf;
    hide ChipKept;
    forall c | 0 <= c < |s.chips|
      ensures IdentityOf(t.chips[c]) == IdentityOf(s.chips[c])
    {
      KeptIdentity(s.chips[c], t.chips[c], FirstLanded(t.log, c));
    }
  }

  // What a task step leaves of the parts that freshness is about
  lemma StepParts(s: State, l: Local, luck: Luck)
    ensures var (t, l') := TaskStep(s, l, luck);
            && t.connections == s.connections && t.plugged == s.plugged && t.running == s.running
            && (l.CheckStore? && l.found.Some? ==>
                  t.checkedBoot == l.found.value && t.checkedConnection == l.connection)
            && (l.CheckStore? && l.found.None? ==> LastCheck(t.log).None?)
            && (!l.CheckStore? ==>
                  && t.checkedBoot == s.checkedBoot && t.checkedConnection == s.checkedConnection
                  && LastCheck(t.log) == LastCheck(s.log))
            && (TaskFresh(s, l) ==> TaskFresh(s, l'))
  {
    hide Evaluate;
    hide Refusal;
    hide ToWrite;
    hide PageLanded;
    var t := TaskStep(s, l, luck).0;
    if t.log != s.log {
      var e := t.log[|t.log| - 1];
      assert t.log == s.log + [e];
      LastCheckMore(s.log, e);
    }
    if l.CheckEnter? && luck.opens && Reached(s, luck).Some? {
      IdentifyReads(s.chips[Reached(s, luck).value], luck);
    }
  }

  lemma LastCheckMore(log: seq<Event>, e: Event)
    ensures LastCheck(log + [e]) ==
            if e.Identified? then Some(e.boot) else if e.NotIdentified? then None else LastCheck(log)
  {
    assert (log + [e])[..|log|] == log;
  }

  lemma IdentifyReads(c: ChipState, luck: Luck)
    ensures Identify(c, luck).tableRead ==> Identify(c, luck) == IdentityOf(c)
  {
  }

  lemma FreshStep(s: State, i: nat, luck: Luck)
    requires Fresh(s) && i < |s.running| && SameSwitches(s, StepOf(s, i, luck))
    ensures Fresh(StepOf(s, i, luck))
  {
    hide IdentityOf;
    hide ReadHere;
    hide TaskStep;
    hide SameSwitches;
    var l, t := s.running[i], StepOf(s, i, luck);
    StepParts(s, l, luck);
    forall j | 0 <= j < |t.running|
      ensures TaskFresh(t, t.running[j])
    {
      var before := if j < |s.running| then s.running[j] else l;
      FreshStays(s, t, t.running[j]);
    }
    if LastCheck(t.log).Some? {
      StaysRead(s, t, t.checkedConnection, t.checkedBoot);
    }
  }

  lemma FreshStays(s: State, t: State, l: Local)
    requires TaskFresh(s, l) && (SameSwitches(s, t) || t.connections > s.connections)
    ensures TaskFresh(t, l)
  {
    hide IdentityOf;
    hide ReadHere;
    if l.CheckStore? && l.found.Some? {
      StaysRead(s, t, l.connection, l.found.value);
    }
  }

  lemma FreshNext(s: State, a: Action)
    requires Fresh(s) && Inv(s)
    ensures Fresh(Next(s, a))
  {
    hide IdentityOf;
    hide ReadHere;
    hide StepOf;
    hide CanFlash;
    hide Inv;
    hide ChipsKept;
    var t := Next(s, a);
    NextKeeps(s, a);
    SameIdentities(s, t);
    if a.Step? && a.i < |s.running| {
      StepSwitches(s, a.i, a.luck);
      FreshStep(s, a.i, a.luck);
    } else {
      forall j | 0 <= j < |t.running|
        ensures TaskFresh(t, t.running[j])
      {
        FreshStays(s, t, t.running[j]);
      }
      if LastCheck(s.log).Some? {
        StaysRead(s, t, s.checkedConnection, s.checkedBoot);
      }
    }
  }

  lemma StepSwitches(s: State, i: nat, luck: Luck)
    requires i < |s.running|
    ensures StepOf(s, i, luck).connections == s.connections && StepOf(s, i, luck).plugged == s.plugged
  {
    hide TaskStep;
    StepParts(s, s.running[i], luck);
  }

  lemma {:induction false} RunIsFresh(chips: seq<ChipState>, actions: seq<Action>)
    ensures Inv(Run(Boot(chips), actions)) && Fresh(Run(Boot(chips), actions))
  {
    hide Inv;
    hide Next;
    BootInv(chips);
    RunKeeps(Boot(chips), actions);
    if actions != [] {
      var n := |actions| - 1;
      RunIsFresh(chips, actions[..n]);
      FreshNext(Run(Boot(chips), actions[..n]), actions[n]);
    }
  }

  // In every run, if flashing is let through on a connection that is still the current one, then what was checked is
  // the bootloader of the very switch that is plugged in.
  lemma CheckHoldsForPlugged(chips: seq<ChipState>, actions: seq<Action>, connected: bool, c: nat)
    requires var s := Run(Boot(chips), actions);
             CanFlash(s, connected, s.connections) && s.plugged == Some(c) && c < |s.chips|
    ensures var s := Run(Boot(chips), actions);
            connected && LastCheck(s.log) == Some(IdentityOf(s.chips[c])) && Evaluate(IdentityOf(s.chips[c])).compatible
  {
    hide Run;
    hide IdentityOf;
    RunIsFresh(chips, actions);
    CanFlashIsReady(Run(Boot(chips), actions), connected, Run(Boot(chips), actions).connections);
    ReadyWasRead(Run(Boot(chips), actions), connected);
  }

  lemma ReadyWasRead(s: State, connected: bool)
    requires CanFlash(s, connected, s.connections) && Inv(s)
    ensures connected && s.checkedConnection == s.connections && s.checkedBoot.tableRead
    ensures LastCheck(s.log) == Some(s.checkedBoot) && Evaluate(s.checkedBoot).compatible
  {
    hide HistoryTrue;
    hide Gated;
  }

  // Flashing is let through exactly when nothing runs, a firmware is staged that fits below a bootloader that was
  // checked on this connection and accepted, and a preview has matched if it is a vector bootloader.
  lemma CanFlashExact(s: State, connected: bool, connections: nat)
    requires Inv(s)
    ensures CanFlash(s, connected, connections) <==>
            && s.task.Idle? && connected && connections == s.checkedConnection && LastCheck(s.log).Some?
            && s.staged.Some?
            && var d := Evaluate(LastCheck(s.log).value);
               d.compatible && |s.staged.value| <= d.appSpace && (d.vector ==> VerifiedSince(s.log))
  {
    hide HistoryTrue;
    hide Gated;
    if LastCheck(s.log).Some? {
      CheckedIsChecked(LastCheck(s.log).value);
    }
  }

  lemma CheckedIsChecked(b: Identity)
    ensures Evaluate(b).checked
  {
  }

  // While a task runs, or no switch is plugged in, no call starts another; and the staged firmware stays as it is while
  // a task runs.
  lemma CallsWait(s: State, a: Action)
    requires !a.Step?
    ensures !s.task.Idle? || s.plugged.None? ==> Next(s, a).running == s.running && Next(s, a).task == s.task
    ensures !s.task.Idle? ==> Next(s, a).staged == s.staged
  {
    hide CanFlash;
  }
}
