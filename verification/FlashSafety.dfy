// What every run of the flasher keeps: page writes are gated by a check and a preview, at most one task
// runs, and no switch ever loses its bootloader.
module FlashSafety {
  import opened Bytes
  import opened ResetVectors
  import opened PatchTheorems
  import opened Flasher
  import opened FlashRuns
  import opened Options

  // ----- The invariant -----

  // The identity of a switch whose table was read
  function IdentityOf(c: ChipState): Identity {
    BootInfo(c.insync, c.ok, c.flash[FLASH_SIZE - 6..], true)
  }

  predicate TaskMatches(task: Task, l: Local) {
    match l
    case CheckStarted => task.Checking?
    case CheckEnter(_) => task.Checking?
    case CheckStore(_, _) => task.Checking?
    case PreviewStarted => task.Previewing?
    case PreviewEnter(_, _) => task.Previewing?
    case PreviewStore(_, _) => task.Previewing?
    case FlashStarted => task.Flashing?
    case FlashEnter(_, _, _) => task.Flashing?
    case FlashWriting(_, _, _, _) => task.Flashing?
    case ProbeStarted => task.Probing?
    case Finishing => true
  }

  // The stored device is what the last check found, with the outcome of the last preview since
  predicate DeviceIsChecked(s: State) {
    var last := LastCheck(s.log);
    && (last.Some? ==> s.checkedBoot == last.value)
    && s.device == (if last.Some? then Evaluate(last.value) else NO_DEVICE).(vectorVerified := VerifiedSince(s.log))
  }

  // An image that leaves a vector bootloader reachable and fits below it
  predicate GoodImage(image: seq<byte>, d: Device) {
    && 0 < |image| <= d.appSpace <= FLASH_SIZE && |image| % PAGE_SIZE == 0
    && (d.vector && d.vectorNum >= 1 ==> ResetIsJump(image) && ResetTarget(image, FLASH_SIZE) == d.appSpace)
  }

  predicate Ready(s: State) { MayWrite(s.log, s.checkedBoot) }

  predicate LocalOk(s: State, l: Local) {
    match l
    case PreviewStarted => s.device.vector
    case PreviewEnter(d, checked) => d == s.device && checked == s.checkedBoot && d.vector
    case PreviewStore(at, matches) =>
      matches ==> at.Some? && at.value < |s.chips| && LeadsToBoot(s.chips[at.value])
    case FlashStarted => Ready(s) && (s.staged.Some? ==> |s.staged.value| > 0)
    case FlashEnter(d, checked, staged) => Ready(s) && d == s.device && checked == s.checkedBoot && |staged| > 0
    case FlashWriting(chip, boot, image, page) =>
      && Ready(s) && boot == s.checkedBoot && GoodImage(image, Evaluate(boot))
      && chip < |s.chips| && boot == IdentityOf(s.chips[chip])
      && (page + 1) * PAGE_SIZE <= |image|
    case _ => true
  }

  // Its bootloader is accepted and is reached through the reset, with a vector of its own for the application
  predicate SavesVector(c: ChipState) {
    var d := Evaluate(IdentityOf(c));
    d.compatible && d.vector && d.vectorNum >= 1
  }

  predicate LeadsToBoot(c: ChipState) { Recoverable(c.flash, Evaluate(IdentityOf(c)).appSpace) }

  // A first page has landed on switch c
  predicate FirstLanded(log: seq<Event>, c: nat) {
    log != [] &&
      var e := log[|log| - 1];
      FirstLanded(log[..|log| - 1], c) || (e.PageWritten? && e.chip == c && e.page == 0)
  }

  // A preview has matched on switch c
  predicate MatchedOn(log: seq<Event>, c: nat) {
    log != [] && (MatchedOn(log[..|log| - 1], c) || log[|log| - 1] == Previewed(Some(c), true))
  }

  // A switch that has had a first page, or a preview that matched, leads to its bootloader
  predicate HistoryTrue(s: State) {
    forall c :: 0 <= c < |s.chips| && SavesVector(s.chips[c]) && (FirstLanded(s.log, c) || MatchedOn(s.log, c)) ==>
      LeadsToBoot(s.chips[c])
  }

  predicate Inv(s: State) {
    && |s.running| == (if s.task.Idle? then 0 else 1)
    && (forall i :: 0 <= i < |s.running| ==> TaskMatches(s.task, s.running[i]) && LocalOk(s, s.running[i]))
    && DeviceIsChecked(s)
    && (s.caller.PreviewAllowed? ==> s.task.Idle? && s.device.vector)
    && (s.caller.FlashAllowed? ==> s.task.Idle? && Ready(s))
    && (s.staged.Some? ==> |s.staged.value| > 0)
    && Gated(s.log)
    && HistoryTrue(s)
  }

  // What becomes of a switch: a bootloader that is not accepted is never written to; one that is keeps every byte at
  // or above its start; and one that saves the application's vector is led to by the reset exactly if it was before,
  // or a first page has landed.
  predicate ChipKept(before: ChipState, after: ChipState, landed: bool) {
    var d := Evaluate(IdentityOf(before));
    && after.insync == before.insync && after.ok == before.ok
    && (!d.compatible ==> after == before)
    && (d.compatible ==> d.appSpace <= FLASH_SIZE && SameBoot(after.flash, before.flash, d.appSpace))
    && (SavesVector(before) ==> (Recoverable(after.flash, d.appSpace) <==> LeadsToBoot(before) || landed))
  }

  predicate ChipsKept(s: State, t: State) {
    && |t.chips| == |s.chips|
    && forall c :: 0 <= c < |s.chips| ==>
         && ChipKept(s.chips[c], t.chips[c], FirstLanded(t.log, c))
         && (FirstLanded(s.log, c) ==> FirstLanded(t.log, c))
  }

  // ----- One step -----

  lemma KeptIdentity(before: ChipState, after: ChipState, landed: bool)
    requires ChipKept(before, after, landed)
    ensures IdentityOf(after) == IdentityOf(before)
  {
    hide Evaluate;
    hide Recoverable;
    var d := Evaluate(IdentityOf(before));
    if d.compatible {
      EvaluateReachable(IdentityOf(before));
      assert after.flash[FLASH_SIZE - 6..] == after.flash[d.appSpace..][FLASH_SIZE - 6 - d.appSpace..];
      assert before.flash[FLASH_SIZE - 6..] == before.flash[d.appSpace..][FLASH_SIZE - 6 - d.appSpace..];
    }
  }

  lemma SameIsKept(c: ChipState, landed: bool)
    requires SavesVector(c) && landed ==> LeadsToBoot(c)
    ensures ChipKept(c, c, landed)
  {
    hide Evaluate;
    hide Recoverable;
    if Evaluate(IdentityOf(c)).compatible {
      EvaluateReachable(IdentityOf(c));
    }
  }

  lemma KeptThenKept(a: ChipState, b: ChipState, c: ChipState, landed: bool, landed': bool)
    requires ChipKept(a, b, landed) && ChipKept(b, c, landed') && (landed ==> landed')
    ensures ChipKept(a, c, landed')
  {
    hide Evaluate;
    hide Recoverable;
    KeptIdentity(a, b, landed);
  }

  // A page of a good image, landing on a switch with that bootloader
  lemma PageKeeps(c: ChipState, image: seq<byte>, page: nat, landed: bool)
    requires Evaluate(IdentityOf(c)).compatible && GoodImage(image, Evaluate(IdentityOf(c)))
    requires (page + 1) * PAGE_SIZE <= |image|
    requires SavesVector(c) && landed ==> LeadsToBoot(c)
    ensures ChipKept(c, c.(flash := PageLanded(c.flash, image, page)), landed || page == 0)
  {
    hide Evaluate;
    hide RjmpTarget;
    var d, after := Evaluate(IdentityOf(c)), PageLanded(c.flash, image, page);
    assert after[d.appSpace..] == c.flash[d.appSpace..];
    if page == 0 {
      assert after[0] == image[0] && after[1] == image[1] && after[2] == image[2] && after[3] == image[3];
    } else {
      assert after[0] == c.flash[0] && after[1] == c.flash[1] && after[2] == c.flash[2] && after[3] == c.flash[3];
    }
  }

  lemma HistoryMore(log: seq<Event>, e: Event, c: nat)
    ensures FirstLanded(log + [e], c) <==> FirstLanded(log, c) || (e.PageWritten? && e.chip == c && e.page == 0)
    ensures MatchedOn(log + [e], c) <==> MatchedOn(log, c) || e == Previewed(Some(c), true)
  {
    assert (log + [e])[..|log|] == log;
  }

  // A step that writes no page
  lemma Untouched(s: State, t: State)
    requires HistoryTrue(s) && t.chips == s.chips
    requires forall c :: 0 <= c < |s.chips| ==> FirstLanded(t.log, c) == FirstLanded(s.log, c)
    ensures ChipsKept(s, t)
  {
    hide Evaluate;
    hide ChipKept;
    hide SavesVector;
    hide LeadsToBoot;
    forall c | 0 <= c < |s.chips|
      ensures ChipKept(s.chips[c], t.chips[c], FirstLanded(t.log, c))
    {
      SameIsKept(s.chips[c], FirstLanded(s.log, c));
    }
  }

  // What the flash task writes is a good image.
  lemma ToWriteIsGood(staged: seq<byte>, boot: Identity, d: Device)
    requires Evaluate(boot).compatible && |staged| > 0 && d == Evaluate(boot).(vectorVerified := d.vectorVerified)
    requires ToWrite(staged, d).0.NoError? && |Padded(staged)| <= d.appSpace
    ensures GoodImage(ToWrite(staged, d).1, Evaluate(boot))
    ensures PAGE_SIZE <= |ToWrite(staged, d).1|
  {
    hide Evaluate;
    hide Patch;
    hide ResetTarget;
    hide ResetIsJump;
    EvaluateReachable(boot);
    PatchKeepsSize(staged, d);
    DivUnique(Pages(|staged|) * PAGE_SIZE, PAGE_SIZE, Pages(|staged|), 0);
    if d.vector {
      PatchReachesBootloader(Padded(staged), d.appSpace, d.vectorNum);
    }
  }

  lemma GatedMore(log: seq<Event>, e: Event)
    requires Gated(log) && (e.PageWritten? ==> MayWrite(log, e.boot))
    ensures Gated(log + [e])
    ensures (log + [e])[..|log|] == log
  {
    hide MayWrite;
    assert (log + [e])[..|log|] == log;
    forall i | 0 <= i < |log + [e]| && (log + [e])[i].PageWritten?
      ensures MayWrite((log + [e])[..i], (log + [e])[i].boot)
    {
      if i < |log| {
        assert (log + [e])[..i] == log[..i];
      }
    }
  }

  lemma WriteStep(s: State, l: Local, luck: Luck)
    requires Inv(s) && s.running == [l] && l.FlashWriting?
    ensures var next := StepOf(s, 0, luck); Inv(next) && ChipsKept(s, next)
  {
    hide Evaluate;
    hide Recoverable;
    hide ChipKept;
    hide SavesVector;
    hide LeadsToBoot;
    hide FirstLanded;
    hide MatchedOn;
    hide PageLanded;
    hide GoodImage;
    assert s.running[0] == l;
    var (s', l') := WritePage(s, l, luck);
    if s'.log == s.log {
      Untouched(s, StepOf(s, 0, luck));
    } else {
      PageStep(s, l, luck);
    }
  }

  lemma PageStep(s: State, l: Local, luck: Luck)
    requires Inv(s) && s.running == [l] && l.FlashWriting? && WritePage(s, l, luck).0.log != s.log
    ensures var next := StepOf(s, 0, luck); Inv(next) && ChipsKept(s, next)
  {
    hide Evaluate;
    hide Recoverable;
    hide ChipKept;
    hide FirstLanded;
    hide MatchedOn;
    hide PageLanded;
    hide GoodImage;
    assert s.running[0] == l;
    var next := StepOf(s, 0, luck);
    var c, e := l.chip, PageWritten(l.chip, l.boot, l.page);
    PageKeeps(s.chips[c], l.image, l.page, FirstLanded(s.log, c));
    KeptIdentity(s.chips[c], next.chips[c], FirstLanded(s.log, c) || l.page == 0);
    GatedMore(s.log, e);
    forall b | 0 <= b < |s.chips|
      ensures ChipKept(s.chips[b], next.chips[b], FirstLanded(next.log, b))
      ensures FirstLanded(s.log, b) ==> FirstLanded(next.log, b)
      ensures SavesVector(next.chips[b]) && (FirstLanded(next.log, b) || MatchedOn(next.log, b)) ==>
                LeadsToBoot(next.chips[b])
    {
      HistoryMore(s.log, e, b);
      if b != c {
        SameIsKept(s.chips[b], FirstLanded(s.log, b));
      } else {
        KeptLeads(s.chips[b], next.chips[b], FirstLanded(next.log, b));
      }
    }
  }

  lemma KeptLeads(before: ChipState, after: ChipState, landed: bool)
    requires ChipKept(before, after, landed) && IdentityOf(after) == IdentityOf(before)
    ensures SavesVector(after) == SavesVector(before)
    ensures SavesVector(before) && (LeadsToBoot(before) || landed) ==> LeadsToBoot(after)
  {
    hide Evaluate;
    hide Recoverable;
  }

  lemma FlashEnterStep(s: State, l: Local, luck: Luck)
    requires Inv(s) && s.running == [l] && l.FlashEnter?
    ensures var next := StepOf(s, 0, luck); Inv(next) && next.chips == s.chips && next.log == s.log
  {
    hide Evaluate;
    hide Recoverable;
    hide ToWrite;
    hide Padded;
    hide GoodImage;
    hide HistoryTrue;
    assert s.running[0] == l;
    var (s', l') := TaskStep(s, l, luck);
    HistorySame(s, StepOf(s, 0, luck));
    if l'.FlashWriting? {
      CompatibleIsRead(l'.boot);
      ToWriteIsGood(l.staged, l'.boot, l.d);
    }
  }

  lemma HistorySame(s: State, t: State)
    requires HistoryTrue(s) && t.chips == s.chips && t.log == s.log
    ensures HistoryTrue(t)
  {
    hide Evaluate;
    hide FirstLanded;
    hide MatchedOn;
  }

  lemma VectorIsCompatible(b: Identity)
    ensures Evaluate(b).vector ==> Evaluate(b).compatible
  {
  }

  // A preview that matches has found a switch that leads to its bootloader.
  lemma PreviewEnterStep(s: State, l: Local, luck: Luck)
    requires Inv(s) && s.running == [l] && l.PreviewEnter?
    ensures var next := StepOf(s, 0, luck); Inv(next) && next.chips == s.chips && next.log == s.log
  {
    hide Evaluate;
    hide Recoverable;
    hide HistoryTrue;
    hide RjmpToBootloader;
    assert s.running[0] == l;
    var (s', l') := TaskStep(s, l, luck);
    HistorySame(s, StepOf(s, 0, luck));
    VectorIsCompatible(s.checkedBoot);
    if l'.PreviewStore? && l'.matches {
      CompatibleIsRead(s.checkedBoot);
      PreviewMeansRecoverable(s.chips[l'.at.value].flash, s.checkedBoot);
    }
  }

  lemma CompatibleIsRead(b: Identity)
    requires Evaluate(b).compatible
    ensures b.tableRead
  {
  }

  // Storing what a check or a preview found
  lemma StoreStep(s: State, l: Local, luck: Luck)
    requires Inv(s) && s.running == [l] && (l.CheckStore? || l.PreviewStore?)
    ensures var next := StepOf(s, 0, luck); Inv(next) && ChipsKept(s, next)
  {
    hide Recoverable;
    hide FirstLanded;
    hide MatchedOn;
    hide ChipsKept;
    assert s.running[0] == l;
    var e := if l.PreviewStore? then Previewed(l.at, l.matches)
             else if l.found.Some? then Identified(l.found.value) else NotIdentified;
    GatedMore(s.log, e);
    if l.CheckStore? && l.found.Some? {
      EvaluateUnverified(l.found.value);
    }
    hide Evaluate;
    forall c | 0 <= c < |s.chips|
      ensures FirstLanded(s.log + [e], c) == FirstLanded(s.log, c)
      ensures MatchedOn(s.log + [e], c) ==> MatchedOn(s.log, c) || e == Previewed(Some(c), true)
    {
      HistoryMore(s.log, e, c);
    }
    Untouched(s, StepOf(s, 0, luck));
  }

  lemma EvaluateUnverified(b: Identity)
    ensures !Evaluate(b).vectorVerified
  {
  }

  lemma StepKeeps(s: State, i: nat, luck: Luck)
    requires Inv(s) && i < |s.running|
    ensures var next := StepOf(s, i, luck); Inv(next) && ChipsKept(s, next)
  {
    hide Evaluate;
    hide ToWrite;
    hide Recoverable;
    hide GoodImage;
    hide ChipsKept;
    hide HistoryTrue;
    var l := s.running[i];
    assert s.running == [l];
    if l.FlashWriting? {
      WriteStep(s, l, luck);
    } else if l.CheckStore? || l.PreviewStore? {
      StoreStep(s, l, luck);
    } else {
      var next := StepOf(s, i, luck);
      if l.FlashEnter? {
        FlashEnterStep(s, l, luck);
      } else if l.PreviewEnter? {
        PreviewEnterStep(s, l, luck);
      } else {
        HistorySame(s, next);
      }
      Untouched(s, next);
    }
  }

  // ----- All runs -----

  // What status() lets through is ready to be flashed.
  lemma CanFlashIsReady(s: State, connected: bool, connections: nat)
    requires Inv(s) && CanFlash(s, connected, connections)
    ensures Ready(s)
  {
    hide HistoryTrue;
  }

  lemma StartKeeps(s: State, task: Task, first: Local, created: bool)
    requires Inv(s) && TaskMatches(task, first) && !task.Idle?
    requires first.FlashStarted? ==> s.caller.FlashAllowed?
    requires first.PreviewStarted? ==> s.caller.PreviewAllowed?
    requires first == CheckStarted || first == PreviewStarted || first == FlashStarted || first == ProbeStarted
    ensures Inv(Start(s, task, first, created))
  {
    hide Evaluate;
    hide Gated;
    hide MayWrite;
    hide HistoryTrue;
    HistorySame(s, Start(s, task, first, created));
  }

  lemma NextKeeps(s: State, a: Action)
    requires Inv(s)
    ensures Inv(Next(s, a)) && ChipsKept(s, Next(s, a))
  {
    hide Evaluate;
    hide Start;
    hide CanFlash;
    hide Gated;
    hide MayWrite;
    hide Recoverable;
    hide GoodImage;
    hide StepOf;
    hide ChipsKept;
    hide HistoryTrue;
    if a.Step? && a.i < |s.running| {
      StepKeeps(s, a.i, a.luck);
    } else {
      match a {
        case StartCheck(created) => StartKeeps(s, Checking, CheckStarted, created);
        case StartPreview(created) =>
          if s.caller.PreviewAllowed? { StartKeeps(s, Previewing, PreviewStarted, created); }
        case StartFlash(created) =>
          if s.caller.FlashAllowed? { StartKeeps(s, Flashing, FlashStarted, created); }
        case StartProbe(created) => StartKeeps(s, Probing, ProbeStarted, created);
        case AskFlash =>
          if s.caller.SawUsb? && CanFlash(s, s.caller.connected, s.caller.connections) {
            CanFlashIsReady(s, s.caller.connected, s.caller.connections);
            CanFlashIsIdle(s, s.caller.connected, s.caller.connections);
          }
        case _ =>
      }
      CallsWriteNothing(s, a);
      HistorySame(s, Next(s, a));
      Untouched(s, Next(s, a));
    }
  }

  lemma CallsWriteNothing(s: State, a: Action)
    ensures !(a.Step? && a.i < |s.running|) ==> Next(s, a).chips == s.chips && Next(s, a).log == s.log
  {
    hide StepOf;
    hide CanFlash;
  }

  lemma CanFlashIsIdle(s: State, connected: bool, connections: nat)
    requires CanFlash(s, connected, connections)
    ensures s.task.Idle?
  {
  }

  lemma {:induction false} RunKeeps(s: State, actions: seq<Action>)
    requires Inv(s)
    ensures Inv(Run(s, actions)) && ChipsKept(s, Run(s, actions))
  {
    hide ChipKept;
    hide Inv;
    hide Next;
    hide FirstLanded;
    if actions == [] {
      HistoryOf(s);
      Untouched(s, s);
    } else {
      var n := |actions| - 1;
      var mid, t := Run(s, actions[..n]), Run(s, actions);
      RunKeeps(s, actions[..n]);
      NextKeeps(mid, actions[n]);
      forall c | 0 <= c < |s.chips|
        ensures ChipKept(s.chips[c], t.chips[c], FirstLanded(t.log, c))
      {
        KeptThenKept(s.chips[c], mid.chips[c], t.chips[c], FirstLanded(mid.log, c), FirstLanded(t.log, c));
      }
    }
  }

  lemma HistoryOf(s: State)
    requires Inv(s)
    ensures HistoryTrue(s)
  {
  }

  lemma BootInv(chips: seq<ChipState>)
    ensures Inv(Boot(chips))
  {
  }

  // In every run, stopped at any point: each page write went to the bootloader found by the latest check,
  // an accepted one; if it is a vector bootloader a preview had matched since that check; and no two
  // tasks run at once.
  lemma FlashingIsGated(chips: seq<ChipState>, actions: seq<Action>)
    ensures var s := Run(Boot(chips), actions); Gated(s.log) && |s.running| <= 1
  {
    BootInv(chips);
    RunKeeps(Boot(chips), actions);
  }

  // Where the bootloader starts and which vector it keeps, by its own bytes near the top of the flash
  function BootStart(flash: Flash): nat { FLASH_SIZE - 128 * (flash[FLASH_SIZE - 6] as int % 128) }

  function VectorOf(flash: Flash): nat { flash[FLASH_SIZE - 5] as int % 128 }

  lemma OwnBytes(c: ChipState)
    ensures var b := IdentityOf(c);
            && b.table[0] == c.flash[FLASH_SIZE - 6] && b.table[1] == c.flash[FLASH_SIZE - 5]
            && (Evaluate(b).compatible ==> Evaluate(b).appSpace == BootStart(c.flash))
            && (SavesVector(c) <==> Evaluate(b).compatible && VectorOf(c.flash) >= 1)
  {
    if Evaluate(IdentityOf(c)).compatible {
      EvaluateReachable(IdentityOf(c));
    }
  }

  // In every run, stopped at any point and whichever pages land: on every switch all bytes from the start of its
  // bootloader on, where its own size byte says that it starts, are as they were; a switch whose bootloader is not
  // accepted is as it was altogether; and one with a bootloader that keeps the application's entry in a vector of its
  // own leads to it if and only if it did at the start or a first page has landed on it. A preview that ever matched on
  // it means that it does.
  lemma NoSwitchIsLost(chips: seq<ChipState>, actions: seq<Action>, c: nat)
    requires c < |chips|
    ensures var s, before := Run(Boot(chips), actions), chips[c];
            var accepted, start := Evaluate(IdentityOf(before)).compatible, BootStart(before.flash);
            && |s.chips| == |chips|
            && s.chips[c].flash[start..] == before.flash[start..]
            && (!accepted ==> s.chips[c] == before)
            && (accepted && VectorOf(before.flash) >= 1 ==>
                  && (Recoverable(s.chips[c].flash, start)
                      <==> Recoverable(before.flash, start) || FirstLanded(s.log, c))
                  && (MatchedOn(s.log, c) ==> Recoverable(s.chips[c].flash, start)))
  {
    hide Evaluate;
    hide Recoverable;
    hide FirstLanded;
    hide MatchedOn;
    hide BootStart;
    hide VectorOf;
    BootInv(chips);
    RunKeeps(Boot(chips), actions);
    var s := Run(Boot(chips), actions);
    HistoryOf(s);
    assert ChipKept(chips[c], s.chips[c], FirstLanded(s.log, c));
    KeptIdentity(chips[c], s.chips[c], FirstLanded(s.log, c));
    OwnBytes(chips[c]);
  }

  // A preview matches only on a switch whose reset already leads to its bootloader.
  lemma PreviewMeansRecoverable(flash: Flash, b: Identity)
    requires Evaluate(b).compatible
    requires WordAt(flash, 0) == RjmpToBootloader(Evaluate(b).appSpace, FLASH_SIZE)
    ensures Recoverable(flash, Evaluate(b).appSpace)
  {
    hide Evaluate;
    hide RjmpTarget;
    EvaluateReachable(b);
    RjmpIsWord(Evaluate(b).appSpace);
    RjmpReachExact(Evaluate(b).appSpace);
  }
}
