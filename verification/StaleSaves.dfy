// A save from a view that an earlier save has left behind (src/platform/esp32/main/svs_settings.cpp).
module StaleSaves {
  import opened Bytes
  import opened SvsConfig
  import opened PlanLemmas
  import opened PlanTheorems
  import opened SvsSettings
  import opened Switch
  import opened TranscoderSettings

  // The settings that were read, with two switches of input 1 the other way
  function Flipped(settings: seq<InputSettings>): seq<InputSettings>
    requires settings != []
  {
    var s := settings[0];
    settings[0 := s.(autoProfile := !s.autoProfile, syncBypass := !s.syncBypass)]
  }

  // The lists that were read fit.
  lemma {:induction false} DecodedFits(view: View, n: nat, inputs: nat, k: nat)
    requires k <= IrSlots(inputs)
    ensures |DecodeIr(view, n, inputs, k)| <= IrSlots(inputs) - k
    decreases IrSlots(inputs) - k
  {
    hide IrSlots;
    hide EndsAt;
    hide CodeAt;
    if k < IrSlots(inputs) && !EndsAt(view, n, inputs, k) {
      DecodedFits(view, n, inputs, k + 1);
    }
  }

  lemma BothPlan(r: Snapshot, dev: Device)
    requires Complete(r, dev) && 1 <= r.inputs <= MAX_INPUTS
    ensures Plannable(r.view, r.settings, r.inputs) && Plannable(r.view, Flipped(r.settings), r.inputs)
  {
    hide Plannable;
    hide ListRead;
    hide DecodeIr;
    forall i | 0 <= i < r.inputs
      ensures |r.settings[i].ir| <= IrSlots(r.inputs)
    {
      DecodedFits(dev, i + 1, r.inputs, 0);
      assert SettingsMatch(r.settings, dev, r.inputs, i + 1);
    }
    CompletePlans(r, dev, r.settings);
    CompletePlans(r, dev, Flipped(r.settings));
  }

  lemma ReadFlag(r: Snapshot, dev: Device, f: Setting, n: nat)
    requires Complete(r, dev) && 1 <= n <= r.inputs <= MAX_INPUTS
    ensures 0 <= r.view[FlagAddr(f, n)] == dev[FlagAddr(f, n)]
    ensures Wanted(f, r.settings[n - 1]) == FlagOf(r.view, f, n) == FlagOf(dev, f, n)
  {
    hide ListRead;
    hide DecodeIr;
    assert IsBitmapAddress(FlagAddr(f, n), r.inputs);
    assert SettingsMatch(r.settings, dev, r.inputs, n);
  }

  // Wanting the settings that were read plans the first bitmap byte as it was.
  lemma SameFlagByte(r: Snapshot, dev: Device, f: Setting)
    requires Complete(r, dev) && 1 <= r.inputs <= MAX_INPUTS && Plannable(r.view, r.settings, r.inputs)
    ensures Planned(r.view, r.settings)[FlagAddr(f, 1)] == r.view[FlagAddr(f, 1)]
  {
    hide FoldBits;
    hide Complete;
    hide Plannable;
    hide PlanUpTo;
    var a, used := FlagAddr(f, 1), BitsUsed(r.inputs, 0);
    SettingsSized(r, dev);
    PlannableSized(r.view, r.settings, r.inputs);
    PlannedFlagByte(r.view, r.settings, f, 1);
    ReadFlag(r, dev, f, 1);
    var v: byte := r.view[a];
    var w := FoldBits(v, r.settings, f, 0, used);
    forall j | 0 <= j < 8
      ensures Bit(w, j) == Bit(v, j)
    {
      FoldBitsBit(v, r.settings, f, 0, used, j);
      if j < used {
        ReadFlag(r, dev, f, j + 1);
      }
    }
    EightBits();
    SameBits(w, v, 8);
  }

  lemma EightBits()
    ensures Pow2(8) == 256
  {
    assert Pow2(4) == 16;
  }

  // Wanting a flag of input 1 the other way plans another byte, which is therefore written.
  lemma FlippedIsWritten(r: Snapshot, dev: Device, f: Setting) returns (j: nat)
    requires Complete(r, dev) && 1 <= r.inputs <= MAX_INPUTS && !f.Rgsb? && r.settings != []
    ensures var w, p := Writes(r.view, Flipped(r.settings)), Planned(r.view, Flipped(r.settings));
            && j < |w| && w[j].0 == FlagAddr(f, 1) && w[j].1 == p[w[j].0] != dev[w[j].0]
            && FlagOf(p, f, 1) != Wanted(f, r.settings[0])
  {
    hide Complete;
    hide Plannable;
    hide PlanUpTo;
    hide Diff;
    SettingsSized(r, dev);
    var want := Flipped(r.settings);
    var a, p, w := FlagAddr(f, 1), Planned(r.view, want), Writes(r.view, want);
    BothPlan(r, dev);
    ReadFlag(r, dev, f, 1);
    PlannedFlag(r.view, want, f, 1);
    assert p[a] != r.view[a];
    DiffExact(r.view, p, |r.view|);
    assert IsChange(r.view, p, a);
    assert (a, p[a] as byte) in w;
    j :| 0 <= j < |w| && w[j] == (a, p[a] as byte);
  }

  lemma SettingsSized(r: Snapshot, dev: Device)
    requires Complete(r, dev)
    ensures |r.settings| == r.inputs
  {
  }

  lemma PlannableSized(view: View, want: seq<InputSettings>, inputs: nat)
    requires Plannable(view, want, inputs)
    ensures |want| == inputs
  {
  }

  // A switch that ignores one byte it did not hold is found out at that byte.
  lemma IgnoredIsFound(dev: Device, w: seq<(int, byte)>, keeps: nat -> bool, answers: nat -> bool, from: nat,
                       asked: nat, j: nat, m: int, check: Check)
    requires Ascending(w) && j < |w| && dev[w[j].0] != w[j].1
    requires (forall i: nat :: answers(i)) && forall i: nat :: keeps(i) <==> i != from + j
    ensures !WillHold(dev, w, keeps, from)
    ensures StopsAt(Taken(dev, w, keeps, from, |w|), w, answers, asked, m, check) ==> check == Differs(w[j].0)
  {
    hide Taken;
    hide Ascending;
    var after := Taken(dev, w, keeps, from, |w|);
    assert !HoldsAfter(dev, w, keeps, from, j);
    forall i | 0 <= i < |w|
      ensures ReadsBack(after, w, answers, asked, i) <==> i != j
    {
      TakenAt(dev, w, keeps, from, |w|, InRange(w, i));
    }
  }

  lemma OneEach(w: seq<(int, byte)>, i: nat, j: nat)
    requires Ascending(w) && i < |w| && j < |w| && w[i].0 == w[j].0
    ensures i == j
  {
  }

  // What the device holds at a byte that was kept and that the second save leaves alone
  lemma StaysWritten(dev: Device, view: View, w: seq<(int, byte)>, out: View, keeps: nat -> bool, from: nat, i: nat)
    requires Ascending(w) && i < |w| && keeps(from + i)
    requires !IsChange(view, out, w[i].0)
    ensures Apply(Taken(dev, w, keeps, from, |w|), Diff(view, out, |view|))[w[i].0] == w[i].1
    ensures Refresh(view, Diff(view, out, |view|))[w[i].0] == view[w[i].0]
  {
    var a := InRange(w, i);
    TakenAt(dev, w, keeps, from, |w|, a);
    ApplyDiff(Taken(dev, w, keeps, from, |w|), view, out, |view|, a);
  }

  lemma SameByteSameFlag(a: View, b: View, f: Flag, n: nat)
    requires 1 <= n && Get(a, FlagAddr(f, n)) == Get(b, FlagAddr(f, n))
    ensures FlagOf(a, f, n) == FlagOf(b, f, n)
  {
  }

  lemma AllKeptAfter(dev: Device, w: seq<(int, byte)>, keeps: nat -> bool, from: nat)
    requires forall i: nat :: i >= from ==> keeps(i)
    ensures WillHold(dev, w, keeps, from)
  {
    forall i | 0 <= i < |w|
      ensures HoldsAfter(dev, w, keeps, from, i)
    {
      assert keeps(from + i);
    }
  }

  lemma NotComplete(s: Snapshot, dev: Device, a: nat)
    requires a < EEPROM_SIZE && 0 <= s.view[a] != dev[a]
    ensures !Complete(s, dev)
  {
  }

  lemma NotMatching(settings: seq<InputSettings>, dev: Device, inputs: nat)
    requires settings != [] && FlagOf(dev, AutoProfile, 1) != settings[0].autoProfile
    ensures !SettingsMatch(settings, dev, inputs, 1)
  {
  }

  lemma {:induction false} NoChanges(settings: seq<InputSettings>, m: nat)
    requires m <= |settings|
    ensures Changes(settings, settings, m) == []
  {
    if m > 0 {
      NoChanges(settings, m - 1);
    }
  }

  lemma NothingToDo(line: Line, told: nat, shown: nat)
    ensures StepsWork(line, told, shown, [], 0)
  {
  }

  // The switch answers and is told everything, and keeps all but command k
  ghost predicate IgnoresOnly(svs: Svs, k: nat)
    reads svs
  {
    && (forall i: nat :: svs.answers(i) && svs.carries(i))
    && (forall i: nat :: svs.keeps(i) <==> i != k)
  }

  // Two saves from one read. The first wants two switches the other way, and the switch ignores one of the bytes; it
  // ends there. The second wants everything as it was read. It is reported as saved, although the device differs from
  // what was wanted: the first save's other byte is still there, and the view does not know it.
  method SaveAndTakeBack(svs: Svs, r: Snapshot, j: nat) returns (first: WriteOutcome, second: WriteOutcome)
    requires Complete(r, svs.eeprom) && 1 <= r.inputs <= MAX_INPUTS
    requires |r.settings| == r.inputs
    requires var w := Writes(r.view, Flipped(r.settings)); j < |w| && w[j].0 == FlagAddr(SyncBypass, 1)
    requires IgnoresOnly(svs, svs.told + j)
    modifies svs`eeprom, svs`told, svs`asked, svs`shown, svs`transcoders
    ensures first == Kept(FlagAddr(SyncBypass, 1)) && second.Saved?
    ensures FlagOf(svs.eeprom, AutoProfile, 1) != r.settings[0].autoProfile
    ensures !SettingsMatch(r.settings, svs.eeprom, r.inputs, 1) && !Complete(second.snapshot, svs.eeprom)
  {
    hide Complete;
    hide Plannable;
    hide PlanUpTo;
    hide Diff;
    hide Taken;
    hide Apply;
    hide Refresh;
    hide WillHold;
    hide StopsAt;
    hide PartWritten;
    hide DecodedAll;
    hide SettingsMatch;
    hide FlagOf;
    hide Ascending;
    hide Changes;
    hide StepsWork;
    hide TxEnds;
    hide TxAfter;
    ghost var dev, told, asked := svs.eeprom, svs.told, svs.asked;
    ghost var w := Writes(r.view, Flipped(r.settings));
    BothPlan(r, dev);
    WritesAscend(r.view, Flipped(r.settings));
    ghost var k := FlippedIsWritten(r, dev, AutoProfile);
    ghost var j' := FlippedIsWritten(r, dev, SyncBypass);
    OneEach(w, j, j');
    ghost var made;
    first, made := WriteTask(svs, r, Flipped(r.settings));
    IgnoredIsFound(dev, w, svs.keeps, svs.answers, told, asked, j, svs.asked - asked,
                   if first.Kept? then Differs(first.addr) else Silent);
    ghost var held := svs.eeprom;
    AllKeptAfter(held, Writes(r.view, r.settings), svs.keeps, svs.told);
    ghost var w', told', asked', tx' := Writes(r.view, r.settings), svs.told, svs.asked, svs.transcoders;
    ghost var shown' := svs.shown;
    second, made := WriteTask(svs, r, r.settings);
    NoChanges(r.settings, r.inputs);
    NothingToDo(LineOf(svs), told' + |w'|, shown');
    EndsSaved(LineOf(svs), told' + |w'|, asked' + |w'|, shown', tx', [], made, r, Refresh(r.view, w'), second);
    EndsWritten(LineOf(svs), told' + |w'|, asked' + |w'|, shown', tx', [], made, r, Refresh(r.view, w'), second);
    SameFlagByte(r, dev, AutoProfile);
    StaysWritten(dev, r.view, w, Planned(r.view, r.settings), svs.keeps, told, k);
    ReadFlag(r, dev, AutoProfile, 1);
    SameByteSameFlag(svs.eeprom, Planned(r.view, Flipped(r.settings)), AutoProfile, 1);
    NotMatching(r.settings, svs.eeprom, r.inputs);
    NotComplete(second.snapshot, svs.eeprom, FlagAddr(AutoProfile, 1));
  }
}
