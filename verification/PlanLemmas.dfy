// What the write planner does, address by address.
module PlanLemmas {
  import opened Bytes
  import opened SvsConfig

  // ----- The IR table: n + k * w names each slot once -----

  lemma {:induction false} RowIs(k: nat, inputs: nat)
    ensures Row(k, inputs) == k * (inputs + 1)
  {
    if k > 0 {
      RowIs(k - 1, inputs);
    }
  }

  lemma SlotsFit(n: nat, k: nat, inputs: nat)
    requires 1 <= n <= inputs && k < IrSlots(inputs)
    ensures IrAddressAddr(n, k, inputs) < IR_REGION
  {
    var w, slots := inputs + 1, IrSlots(inputs);
    var rest := slots - 1 - k;
    RowIs(k, inputs);
    assert IR_REGION == slots * w + IR_REGION % w;
    assert slots * w == (rest + k + 1) * w == rest * w + k * w + w;
    assert rest * w >= 0;
  }

  // Slot k of input n is at these two addresses, and those addresses are nothing else.
  lemma LocateSlot(n: nat, k: nat, inputs: nat, a: nat)
    requires 1 <= n <= inputs && k < IrSlots(inputs)
    ensures IrCommandAddr(n, k, inputs) < 2 * IR_REGION
    ensures a == IrAddressAddr(n, k, inputs) <==> Locate(a, inputs) == IrAddress(n, k)
    ensures a == IrCommandAddr(n, k, inputs) <==> Locate(a, inputs) == IrCommand(n, k)
  {
    SlotsFit(n, k, inputs);
    RowIs(k, inputs);
    DivUnique(a, inputs + 1, k, n);
    if a >= IR_COMMAND_OFFSET {
      DivUnique(a - IR_COMMAND_OFFSET, inputs + 1, k, n);
    }
  }

  // An address located in the IR table is the address of the slot it names.
  lemma LocatedSlot(a: nat, inputs: nat)
    requires 1 <= inputs
    ensures Locate(a, inputs).IrAddress? ==> var IrAddress(n, k) := Locate(a, inputs);
              1 <= n <= inputs && k < IrSlots(inputs) && a == IrAddressAddr(n, k, inputs)
    ensures Locate(a, inputs).IrCommand? ==> var IrCommand(n, k) := Locate(a, inputs);
              1 <= n <= inputs && k < IrSlots(inputs) && a == IrCommandAddr(n, k, inputs)
  {
    RowOf(a, inputs);
    if a >= IR_COMMAND_OFFSET {
      RowOf(a - IR_COMMAND_OFFSET, inputs);
    }
  }

  lemma RowOf(b: nat, inputs: nat)
    ensures var w := inputs + 1; b % w < w && b == b % w + Row(b / w, inputs)
  {
    RowIs(b / (inputs + 1), inputs);
  }

  lemma LocateFlag(f: Setting, n: nat, inputs: nat, a: nat)
    requires 1 <= n <= MAX_INPUTS
    ensures a == FlagAddr(f, n) <==> Locate(a, inputs) == FlagByte(f, (n - 1) / 8)
  {
  }

  lemma {:induction false} PutCodesAt(view: View, codes: seq<IrCode>, n: nat, inputs: nat, k: nat, a: nat)
    requires 1 <= n <= inputs && k <= IrSlots(inputs) && a < EEPROM_SIZE
    ensures PutCodes(view, codes, n, inputs, k)[a] ==
            match Locate(a, inputs)
            case IrAddress(m, j) => if m == n && j < k then SlotCode(codes, j).address else view[a]
            case IrCommand(m, j) => if m == n && j < k then SlotCode(codes, j).command else view[a]
            case _ => view[a]
  {
    if k > 0 {
      PutCodesAt(view, codes, n, inputs, k - 1, a);
      LocateSlot(n, k - 1, inputs, a);
    }
  }

  lemma PutFlagsAt(view: View, s: InputSettings, n: nat, inputs: nat, a: nat)
    requires 1 <= n <= MAX_INPUTS && a < EEPROM_SIZE
    ensures PutFlags(view, s, n)[a] ==
            match Locate(a, inputs)
            case FlagByte(f, i) =>
              if i == (n - 1) / 8 && view[a] >= 0
              then WithByteBit(view[a], (n - 1) % 8, if ActiveLow(f) then !Wanted(f, s) else Wanted(f, s))
              else view[a]
            case _ => view[a]
  {
    LocateFlag(AutoProfile, n, inputs, a);
    LocateFlag(Rgsb, n, inputs, a);
    LocateFlag(SyncBypass, n, inputs, a);
  }

  // Input m's bit is the next one of its bitmap byte and of no other.
  lemma FoldBitsNext(v: byte, want: seq<InputSettings>, f: Setting, i: nat, m: nat)
    requires 1 <= m <= |want|
    ensures var before := FoldBits(v, want, f, 8 * i, BitsUsed(m - 1, i));
            var on := Wanted(f, want[m - 1]);
            FoldBits(v, want, f, 8 * i, BitsUsed(m, i)) ==
            if i == (m - 1) / 8 then WithByteBit(before, (m - 1) % 8, if ActiveLow(f) then !on else on) else before
  {
  }

  lemma PutFlagsPlanned(read: View, want: seq<InputSettings>, inputs: nat, m: nat, a: nat, before: View)
    requires 1 <= m <= inputs == |want| <= MAX_INPUTS && a < EEPROM_SIZE
    requires before[a] == PlannedCell(read, want, inputs, m - 1, a)
    requires !Locate(a, inputs).IrAddress? && !Locate(a, inputs).IrCommand?
    ensures PutFlags(before, want[m - 1], m)[a] == PlannedCell(read, want, inputs, m, a)
  {
    PutFlagsAt(before, want[m - 1], m, inputs, a);
    match Locate(a, inputs) {
      case FlagByte(f, i) => if read[a] >= 0 { FoldBitsNext(read[a], want, f, i, m); }
      case _ =>
    }
  }

  lemma PlanStart(read: View, want: seq<InputSettings>, inputs: nat)
    ensures PlanUpTo(read, want, inputs, 0) == read
  {
  }

  lemma SlotsWrittenFit(read: View, codes: seq<IrCode>, n: nat, inputs: nat)
    ensures SlotsWritten(read, codes, n, inputs) <= IrSlots(inputs)
  {
  }

  // The step-by-step plan holds at every address what looking the address up says.
  lemma {:induction false} PlanUpToAt(read: View, want: seq<InputSettings>, inputs: nat, m: nat, a: nat)
    requires m <= inputs == |want| <= MAX_INPUTS && 1 <= inputs && a < EEPROM_SIZE
    ensures PlanUpTo(read, want, inputs, m)[a] == PlannedCell(read, want, inputs, m, a)
  {
    hide Locate;
    hide SlotsWritten;
    hide PutFlags;
    if m > 0 {
      var s := want[m - 1];
      SlotsWrittenFit(read, s.ir, m, inputs);
      var before := PlanUpTo(read, want, inputs, m - 1);
      PlanUpToAt(read, want, inputs, m - 1, a);
      PutCodesAt(PutFlags(before, s, m), s.ir, m, inputs, SlotsWritten(read, s.ir, m, inputs), a);
      if Locate(a, inputs).IrAddress? || Locate(a, inputs).IrCommand? {
        PutFlagsAt(before, s, m, inputs, a);
      } else {
        PutFlagsPlanned(read, want, inputs, m, a, before);
      }
    }
  }
}
