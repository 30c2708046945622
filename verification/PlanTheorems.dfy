// What the write planner promises: the device ends up holding what is wanted, nothing else changes,
// and planning again changes nothing.
module PlanTheorems {
  import opened Bytes
  import opened SvsConfig
  import opened PlanLemmas

  // ----- The list of writes -----

  predicate IsChange(read: View, out: View, a: nat)
    requires a < EEPROM_SIZE
  {
    out[a] >= 0 && out[a] != read[a]
  }

  // The writes are in ascending address order and are exactly the bytes that change.
  lemma {:induction false} DiffExact(read: View, out: View, top: nat)
    requires top <= EEPROM_SIZE
    ensures var w := Diff(read, out, top);
            && (forall i, j :: 0 <= i < j < |w| ==> w[i].0 < w[j].0)
            && (forall i :: 0 <= i < |w| ==>
                  0 <= w[i].0 < top && IsChange(read, out, w[i].0) && w[i].1 == out[w[i].0])
            && (forall a :: 0 <= a < top && IsChange(read, out, a) ==> (a, out[a] as byte) in w)
  {
    if top > 0 {
      DiffExact(read, out, top - 1);
    }
  }

  lemma {:induction false} ApplyDiff(dev: Device, read: View, out: View, top: nat, a: nat)
    requires top <= EEPROM_SIZE && a < EEPROM_SIZE
    ensures Apply(dev, Diff(read, out, top))[a] == if a < top && IsChange(read, out, a) then out[a] else dev[a]
    ensures Refresh(read, Diff(read, out, top))[a] == if a < top && IsChange(read, out, a) then out[a] else read[a]
  {
    if top > 0 {
      ApplyDiff(dev, read, out, top - 1, a);
      var w := Diff(read, out, top);
      if IsChange(read, out, top - 1) {
        assert w[..|w| - 1] == Diff(read, out, top - 1);
      }
    }
  }

  // However many of the writes were made, every byte is the old one or the planned one.
  lemma {:induction false} ApplySome(dev: Device, read: View, out: View, top: nat, i: nat, a: nat)
    requires top <= EEPROM_SIZE && a < EEPROM_SIZE && i <= |Diff(read, out, top)|
    ensures var b := Apply(dev, Diff(read, out, top)[..i])[a];
            b == dev[a] || (IsChange(read, out, a) && b == out[a])
  {
    var w := Diff(read, out, top);
    if i == |w| {
      assert w[..i] == w;
      ApplyDiff(dev, read, out, top, a);
    } else if top > 0 {
      ApplySome(dev, read, out, top - 1, i, a);
      assert w[..i] == Diff(read, out, top - 1)[..i];
    }
  }

  // ----- Bits -----

  lemma {:induction false} FoldBitsBit(v: byte, want: seq<InputSettings>, f: Setting, first: nat, count: nat, j: nat)
    requires count <= 8 && (count > 0 ==> first + count <= |want|) && j < 8
    ensures Bit(FoldBits(v, want, f, first, count), j) ==
            if j < count then (if ActiveLow(f) then !Wanted(f, want[first + j]) else Wanted(f, want[first + j]))
            else Bit(v, j)
  {
    if count > 0 {
      FoldBitsBit(v, want, f, first, count - 1, j);
      var on := Wanted(f, want[first + count - 1]);
      WithBitBits(FoldBits(v, want, f, first, count - 1), count - 1, if ActiveLow(f) then !on else on, j);
    }
  }

  // ----- Lists -----

  // Slots 0..|codes| (as far as there are slots) hold the codes and the empty mark that ends them
  predicate HoldsList(view: View, n: nat, inputs: nat, codes: seq<IrCode>) {
    forall k :: 0 <= k <= |codes| && k < IrSlots(inputs) ==> HoldsSlot(view, n, inputs, codes, k)
  }

  predicate HoldsSlot(view: View, n: nat, inputs: nat, codes: seq<IrCode>, k: nat) {
    && Get(view, IrAddressAddr(n, k, inputs)) == SlotCode(codes, k).address
    && Get(view, IrCommandAddr(n, k, inputs)) == SlotCode(codes, k).command
  }

  // What a reader makes of a list: it stops at the first code whose address is the empty mark
  function UntilEmpty(codes: seq<IrCode>): seq<IrCode> {
    if codes == [] || codes[0].address == IR_EMPTY then [] else [codes[0]] + UntilEmpty(codes[1..])
  }

  predicate NoEmptyAddress(codes: seq<IrCode>) {
    forall i :: 0 <= i < |codes| ==> codes[i].address != IR_EMPTY
  }

  lemma {:induction false} UntilEmptyIsAll(codes: seq<IrCode>)
    ensures |UntilEmpty(codes)| <= |codes|
    ensures UntilEmpty(codes) == codes <==> NoEmptyAddress(codes)
  {
    if codes != [] {
      UntilEmptyIsAll(codes[1..]);
      assert codes == [codes[0]] + codes[1..];
      if codes[0].address != IR_EMPTY {
        assert UntilEmpty(codes)[1..] == UntilEmpty(codes[1..]);
        assert NoEmptyAddress(codes) <==> NoEmptyAddress(codes[1..]) by {
          assert forall i :: 0 <= i < |codes[1..]| ==> codes[1..][i] == codes[i + 1];
          assert forall i :: 1 <= i < |codes| ==> codes[i] == codes[1..][i - 1];
        }
      }
    }
  }

  lemma {:induction false} DecodeHeld(view: View, n: nat, inputs: nat, codes: seq<IrCode>, k: nat)
    requires HoldsList(view, n, inputs, codes) && k <= |codes| <= IrSlots(inputs)
    ensures DecodeIr(view, n, inputs, k) == UntilEmpty(codes[k..])
    decreases |codes| - k
  {
    if k < IrSlots(inputs) {
      assert HoldsSlot(view, n, inputs, codes, k);
      if k < |codes| {
        DecodeHeld(view, n, inputs, codes, k + 1);
        assert codes[k..][1..] == codes[k + 1..];
      }
    }
  }

  // A held list is read back whole exactly when no code in it looks like the end of it.
  lemma HeldListRead(view: View, n: nat, inputs: nat, codes: seq<IrCode>)
    requires HoldsList(view, n, inputs, codes) && |codes| <= IrSlots(inputs)
    ensures DecodeIr(view, n, inputs, 0) == codes <==> NoEmptyAddress(codes)
    ensures |DecodeIr(view, n, inputs, 0)| <= |codes|
  {
    DecodeHeld(view, n, inputs, codes, 0);
    assert codes[0..] == codes;
    UntilEmptyIsAll(codes);
  }

  predicate HoldsSettings(view: View, n: nat, inputs: nat, s: InputSettings)
    requires 1 <= n
  {
    && HoldsList(view, n, inputs, s.ir)
    && FlagOf(view, AutoProfile, n) == s.autoProfile
    && FlagOf(view, Rgsb, n) == s.rgsb
    && FlagOf(view, SyncBypass, n) == s.syncBypass
  }

  lemma HeldSettingsRead(view: View, n: nat, inputs: nat, s: InputSettings)
    requires 1 <= n && HoldsSettings(view, n, inputs, s) && |s.ir| <= IrSlots(inputs)
    ensures Decode(view, n, inputs, s) == s <==> NoEmptyAddress(s.ir)
  {
    HeldListRead(view, n, inputs, s.ir);
  }

  lemma FewerSlots(view: View, read: View, codes: seq<IrCode>, n: nat, inputs: nat)
    requires HoldsList(view, n, inputs, codes) && |codes| <= IrSlots(inputs)
    ensures SlotsWritten(view, codes, n, inputs) <= SlotsWritten(read, codes, n, inputs)
  {
    HeldListRead(view, n, inputs, codes);
  }

  // ----- The planned view and the device it is written to -----

  // After the writes, the device and the refreshed view hold every planned byte, and the device is
  // unchanged wherever nothing is planned.
  lemma WrittenAt(dev: Device, read: View, want: seq<InputSettings>, a: nat)
    requires Agrees(read, dev) && a < EEPROM_SIZE && Plannable(read, want, |want|)
    ensures Refresh(read, Writes(read, want))[a] == Planned(read, want)[a] == PlannedCell(read, want, |want|, |want|, a)
    ensures var after := Apply(dev, Writes(read, want))[a];
            after == if Planned(read, want)[a] >= 0 then Planned(read, want)[a] else dev[a]
  {
    ApplyDiff(dev, read, Planned(read, want), |read|, a);
    PlanUpToAt(read, want, |want|, |want|, a);
  }

  lemma RefreshIsPlanned(read: View, want: seq<InputSettings>)
    requires Plannable(read, want, |want|)
    ensures Refresh(read, Writes(read, want)) == Planned(read, want)
  {
    var p := Planned(read, want);
    forall a | 0 <= a < EEPROM_SIZE
      ensures Refresh(read, Writes(read, want))[a] == p[a]
    {
      ApplyDiff(seq(EEPROM_SIZE, i => 0), read, p, |read|, a);
      PlanUpToAt(read, want, |want|, |want|, a);
    }
  }

  lemma PlannedList(read: View, want: seq<InputSettings>, n: nat)
    requires Plannable(read, want, |want|) && 1 <= n <= |want|
    ensures HoldsList(Planned(read, want), n, |want|, want[n - 1].ir)
  {
    hide PlanUpTo;
    hide Locate;
    hide DecodeIr;
    var inputs, p, codes := |want|, Planned(read, want), want[n - 1].ir;
    forall k | 0 <= k <= |codes| && k < IrSlots(inputs)
      ensures HoldsSlot(p, n, inputs, codes, k)
    {
      var a, c := IrAddressAddr(n, k, inputs), IrCommandAddr(n, k, inputs);
      LocateSlot(n, k, inputs, a);
      LocateSlot(n, k, inputs, c);
      PlanUpToAt(read, want, inputs, inputs, a);
      PlanUpToAt(read, want, inputs, inputs, c);
    }
  }

  lemma PlannedFlagByte(read: View, want: seq<InputSettings>, f: Setting, n: nat)
    requires Plannable(read, want, |want|) && 1 <= n <= |want|
    ensures var i := (n - 1) / 8;
            && read[FlagAddr(f, n)] >= 0
            && Planned(read, want)[FlagAddr(f, n)] ==
               FoldBits(read[FlagAddr(f, n)], want, f, 8 * i, BitsUsed(|want|, i))
  {
    hide PlanUpTo;
    hide Locate;
    hide FoldBits;
    assert InputPlannable(read, want, |want|, n);
    LocateFlag(f, n, |want|, FlagAddr(f, n));
    PlanUpToAt(read, want, |want|, |want|, FlagAddr(f, n));
  }

  lemma PlannedFlag(read: View, want: seq<InputSettings>, f: Setting, n: nat)
    requires Plannable(read, want, |want|) && 1 <= n <= |want|
    ensures Planned(read, want)[FlagAddr(f, n)] >= 0
    ensures FlagOf(Planned(read, want), f, n) == Wanted(f, want[n - 1])
  {
    hide PlanUpTo;
    hide FoldBits;
    var i := (n - 1) / 8;
    PlannedFlagByte(read, want, f, n);
    FoldBitsBit(read[FlagAddr(f, n)], want, f, 8 * i, BitsUsed(|want|, i), (n - 1) % 8);
  }

  // Agreement carries the planned list and flags over to the device itself.
  lemma WrittenHolds(dev: Device, read: View, want: seq<InputSettings>, n: nat)
    requires Agrees(read, dev) && Plannable(read, want, |want|) && 1 <= n <= |want|
    ensures HoldsSettings(Apply(dev, Writes(read, want)), n, |want|, want[n - 1])
  {
    var inputs, after, codes := |want|, Apply(dev, Writes(read, want)), want[n - 1].ir;
    PlannedList(read, want, n);
    forall k | 0 <= k <= |codes| && k < IrSlots(inputs)
      ensures HoldsSlot(after, n, inputs, codes, k)
    {
      assert HoldsSlot(Planned(read, want), n, inputs, codes, k);
      LocateSlot(n, k, inputs, IrAddressAddr(n, k, inputs));
      SlotsFit(n, k, inputs);
      WrittenAt(dev, read, want, IrAddressAddr(n, k, inputs));
      WrittenAt(dev, read, want, IrCommandAddr(n, k, inputs));
    }
    PlannedFlag(read, want, AutoProfile, n);
    PlannedFlag(read, want, Rgsb, n);
    PlannedFlag(read, want, SyncBypass, n);
    WrittenAt(dev, read, want, FlagAddr(AutoProfile, n));
    WrittenAt(dev, read, want, FlagAddr(Rgsb, n));
    WrittenAt(dev, read, want, FlagAddr(SyncBypass, n));
  }

  // The main result. Whatever part of the EEPROM was read, if the plan is accepted then the whole
  // device, slots never read included, decodes to what was wanted for input n exactly when none of
  // its wanted IR codes has the empty mark as its address.
  lemma WriteEndToEnd(dev: Device, read: View, want: seq<InputSettings>, n: nat)
    requires Agrees(read, dev) && Plannable(read, want, |want|) && 1 <= n <= |want|
    ensures Decode(Apply(dev, Writes(read, want)), n, |want|, want[n - 1]) == want[n - 1]
            <==> NoEmptyAddress(want[n - 1].ir)
  {
    assert InputPlannable(read, want, |want|, n);
    WrittenHolds(dev, read, want, n);
    HeldSettingsRead(Apply(dev, Writes(read, want)), n, |want|, want[n - 1]);
  }

  // What the writes leave alone: every address the map does not give to an input, the slots past
  // those written, and in a bitmap byte the bits of inputs past the last one.
  lemma WriteFrame(dev: Device, read: View, want: seq<InputSettings>, a: nat)
    requires Agrees(read, dev) && Plannable(read, want, |want|) && a < EEPROM_SIZE
    ensures var inputs, after := |want|, Apply(dev, Writes(read, want));
            match Locate(a, inputs)
            case Other => after[a] == dev[a]
            case FlagByte(f, i) => forall j :: 0 <= j < 8 && 8 * i + j >= inputs ==> Bit(after[a], j) == Bit(dev[a], j)
            case IrAddress(n, k) => k >= SlotsWritten(read, want[n - 1].ir, n, inputs) ==> after[a] == dev[a]
            case IrCommand(n, k) => k >= SlotsWritten(read, want[n - 1].ir, n, inputs) ==> after[a] == dev[a]
  {
    var inputs, after := |want|, Apply(dev, Writes(read, want));
    WrittenAt(dev, read, want, a);
    LocatedSlot(a, inputs);
    match Locate(a, inputs) {
      case FlagByte(f, i) =>
        if read[a] >= 0 {
          forall j | 0 <= j < 8 && 8 * i + j >= inputs
            ensures Bit(after[a], j) == Bit(dev[a], j)
          {
            FoldBitsBit(read[a], want, f, 8 * i, BitsUsed(inputs, i), j);
          }
        }
      case _ =>
    }
  }

  // A setting that is wanted as it already was leaves its bit as it was, whatever the other inputs get.
  lemma WriteKeepsFlag(dev: Device, read: View, want: seq<InputSettings>, f: Setting, n: nat)
    requires Agrees(read, dev) && Plannable(read, want, |want|) && 1 <= n <= |want|
    requires Wanted(f, want[n - 1]) == FlagOf(read, f, n)
    ensures Bit(Apply(dev, Writes(read, want))[FlagAddr(f, n)], (n - 1) % 8) == Bit(dev[FlagAddr(f, n)], (n - 1) % 8)
  {
    assert InputPlannable(read, want, |want|, n);
    PlannedFlag(read, want, f, n);
    WrittenAt(dev, read, want, FlagAddr(f, n));
  }

  // A view that no longer agrees with the device, as after a save that failed half way, still leads
  // to the planned bytes exactly when the device holds what the view says wherever the plan does not
  // write.
  lemma StaleView(dev: Device, read: View, want: seq<InputSettings>)
    requires Plannable(read, want, |want|)
    ensures (forall a :: 0 <= a < EEPROM_SIZE && Planned(read, want)[a] >= 0 ==>
               Apply(dev, Writes(read, want))[a] == Planned(read, want)[a])
            <==>
            (forall a :: 0 <= a < EEPROM_SIZE && read[a] >= 0 && !IsChange(read, Planned(read, want), a) ==>
               dev[a] == read[a])
  {
    hide PlanUpTo;
    hide FoldBits;
    hide Locate;
    var p := Planned(read, want);
    forall a | 0 <= a < EEPROM_SIZE
      ensures Apply(dev, Writes(read, want))[a] == if IsChange(read, p, a) then p[a] else dev[a]
      ensures read[a] >= 0 ==> p[a] >= 0
    {
      ApplyDiff(dev, read, p, |read|, a);
      PlanUpToAt(read, want, |want|, |want|, a);
    }
  }

  // ----- Planning again -----

  lemma {:induction false} FoldBitsAgain(v: byte, want: seq<InputSettings>, f: Setting, first: nat, count: nat)
    requires count <= 8 && (count > 0 ==> first + count <= |want|)
    ensures FoldBits(FoldBits(v, want, f, first, count), want, f, first, count) == FoldBits(v, want, f, first, count)
  {
    var once := FoldBits(v, want, f, first, count);
    var twice := FoldBits(once, want, f, first, count);
    forall j | 0 <= j < 8
      ensures Bit(once, j) == Bit(twice, j)
    {
      FoldBitsBit(v, want, f, first, count, j);
      FoldBitsBit(once, want, f, first, count, j);
    }
    SameBits(once, twice, 8);
  }

  lemma ReplanSlots(read: View, want: seq<InputSettings>, n: nat)
    requires Plannable(read, want, |want|) && 1 <= n <= |want|
    ensures SlotsWritten(Planned(read, want), want[n - 1].ir, n, |want|)
            <= SlotsWritten(read, want[n - 1].ir, n, |want|)
  {
    assert InputPlannable(read, want, |want|, n);
    PlannedList(read, want, n);
    FewerSlots(Planned(read, want), read, want[n - 1].ir, n, |want|);
  }

  lemma ReplanCell(read: View, want: seq<InputSettings>, a: nat)
    requires Plannable(read, want, |want|) && a < EEPROM_SIZE
    ensures Planned(Planned(read, want), want)[a] == Planned(read, want)[a]
  {
    hide PlanUpTo;
    hide Locate;
    hide FoldBits;
    hide DecodeIr;
    var inputs, p := |want|, Planned(read, want);
    PlanUpToAt(read, want, inputs, inputs, a);
    PlanUpToAt(p, want, inputs, inputs, a);
    LocatedSlot(a, inputs);
    match Locate(a, inputs) {
      case IrAddress(n, k) => ReplanSlots(read, want, n);
      case IrCommand(n, k) => ReplanSlots(read, want, n);
      case FlagByte(f, i) => if read[a] >= 0 { FoldBitsAgain(read[a], want, f, 8 * i, BitsUsed(inputs, i)); }
      case Other =>
    }
  }

  lemma {:induction false} NoChangeNoWrites(view: View, out: View, top: nat)
    requires top <= EEPROM_SIZE
    requires forall a :: 0 <= a < top ==> out[a] == view[a]
    ensures Diff(view, out, top) == []
  {
    if top > 0 {
      NoChangeNoWrites(view, out, top - 1);
    }
  }

  lemma PlannedIsPlannable(read: View, want: seq<InputSettings>)
    requires Plannable(read, want, |want|)
    ensures Plannable(Planned(read, want), want, |want|)
  {
    forall n | 1 <= n <= |want|
      ensures InputPlannable(Planned(read, want), want, |want|, n)
    {
      assert InputPlannable(read, want, |want|, n);
      PlannedFlag(read, want, AutoProfile, n);
      PlannedFlag(read, want, Rgsb, n);
      PlannedFlag(read, want, SyncBypass, n);
    }
  }

  // Planning the same settings again from the refreshed view is accepted and writes nothing.
  lemma ReplanNothing(read: View, want: seq<InputSettings>)
    requires Plannable(read, want, |want|)
    ensures var again := Refresh(read, Writes(read, want));
            Plannable(again, want, |want|) && Writes(again, want) == []
  {
    var p := Planned(read, want);
    RefreshIsPlanned(read, want);
    PlannedIsPlannable(read, want);
    forall a | 0 <= a < EEPROM_SIZE
      ensures Planned(p, want)[a] == p[a]
    {
      ReplanCell(read, want, a);
    }
    NoChangeNoWrites(p, Planned(p, want), |p|);
  }
}
