// The bridge's view of the EEPROM, and the methods that decode it and plan writes to it
// (src/core/svs_config.h).
module EepromView {
  import opened Bytes
  import opened SvsConfig
  import opened PlanLemmas

  class Eeprom {
    var bytes: View

    constructor ()
      ensures bytes == seq(EEPROM_SIZE, i => UNREAD)
    {
      bytes := seq(EEPROM_SIZE, i => UNREAD);
    }

    constructor Copy(other: Eeprom)
      ensures bytes == other.bytes
    {
      bytes := other.bytes;
    }

    method Set(addr: int, v: byte)
      modifies this
      ensures bytes == Put(old(bytes), addr, v)
    {
      if 0 <= addr < EEPROM_SIZE {
        bytes := bytes[addr := v];
      }
    }

    // Refused, and nothing changed, when the byte the bit is in has not been read
    method PutBit(f: Flag, n: nat, on: bool) returns (ok: bool)
      requires 1 <= n
      modifies this
      ensures ok == (Get(old(bytes), FlagAddr(f, n)) >= 0)
      ensures bytes == PutFlag(old(bytes), f, n, on)
    {
      var v := Get(bytes, FlagAddr(f, n));
      if v < 0 {
        return false;
      }
      Set(FlagAddr(f, n), WithByteBit(v, (n - 1) % 8, if ActiveLow(f) then !on else on));
      return true;
    }
  }

  method DecodeInput(e: Eeprom, n: nat, inputs: nat, s: InputSettings) returns (r: InputSettings)
    requires 1 <= n
    ensures r == Decode(e.bytes, n, inputs, s)
  {
    var ir: seq<IrCode> := [];
    var k := 0;
    var slots := IrSlots(inputs);
    while k < slots && !EndsAt(e.bytes, n, inputs, k)
      invariant 0 <= k <= slots
      invariant ir + DecodeIr(e.bytes, n, inputs, k) == DecodeIr(e.bytes, n, inputs, 0)
    {
      var code := CodeAt(e.bytes, n, inputs, k);
      assert ir + ([code] + DecodeIr(e.bytes, n, inputs, k + 1)) == (ir + [code]) + DecodeIr(e.bytes, n, inputs, k + 1);
      ir := ir + [code];
      k := k + 1;
    }
    r := s.(autoProfile := FlagOf(e.bytes, AutoProfile, n),
            rgsb := FlagOf(e.bytes, Rgsb, n),
            syncBypass := FlagOf(e.bytes, SyncBypass, n),
            ir := ir);
  }

  datatype PlanError = NoError | WrongInputs | NotRead | TooManyCodes(n: nat)

  // A flag byte has been read in the plan so far exactly when it had been read at the start.
  lemma PlanKeepsRead(read: View, want: seq<InputSettings>, inputs: nat, m: nat, n: nat)
    requires m <= inputs == |want| <= MAX_INPUTS && 1 <= n <= inputs
    ensures FlagsRead(PlanUpTo(read, want, inputs, m), n) <==> FlagsRead(read, n)
  {
    LocateFlag(AutoProfile, n, inputs, FlagAddr(AutoProfile, n));
    LocateFlag(Rgsb, n, inputs, FlagAddr(Rgsb, n));
    LocateFlag(SyncBypass, n, inputs, FlagAddr(SyncBypass, n));
    PlanUpToAt(read, want, inputs, m, FlagAddr(AutoProfile, n));
    PlanUpToAt(read, want, inputs, m, FlagAddr(Rgsb, n));
    PlanUpToAt(read, want, inputs, m, FlagAddr(SyncBypass, n));
  }

  // Writing the flags of an input that has unread ones
  method PutInputFlags(out: Eeprom, s: InputSettings, n: nat) returns (ok: bool)
    requires 1 <= n <= MAX_INPUTS
    modifies out
    ensures ok <==> FlagsRead(old(out.bytes), n)
    ensures ok ==> out.bytes == PutFlags(old(out.bytes), s, n)
  {
    ok := out.PutBit(AutoProfile, n, s.autoProfile);
    if ok {
      ok := out.PutBit(Rgsb, n, s.rgsb);
    }
    if ok {
      ok := out.PutBit(SyncBypass, n, s.syncBypass);
    }
  }

  method PutSlot(out: Eeprom, codes: seq<IrCode>, n: nat, inputs: nat, k: nat)
    modifies out
    ensures out.bytes == Put(Put(old(out.bytes), IrAddressAddr(n, k, inputs), SlotCode(codes, k).address),
                             IrCommandAddr(n, k, inputs), SlotCode(codes, k).command)
  {
    out.Set(IrAddressAddr(n, k, inputs), if k < |codes| then codes[k].address else IR_EMPTY);
    out.Set(IrCommandAddr(n, k, inputs), if k < |codes| then codes[k].command else IR_EMPTY);
  }

  // Writes one input's list over the one read, which may have been longer
  method PutInputCodes(read: Eeprom, out: Eeprom, codes: seq<IrCode>, n: nat, inputs: nat)
    requires 1 <= n && read != out
    modifies out
    ensures out.bytes == PutCodes(old(out.bytes), codes, n, inputs, SlotsWritten(read.bytes, codes, n, inputs))
  {
    hide DecodeIr;
    hide IrSlots;
    hide IrAddressAddr;
    hide Put;
    var slots := IrSlots(inputs);
    var before := DecodeInput(read, n, inputs, DEFAULT_SETTINGS);
    var end := Max(|codes| + 1, |before.ir| + 1);
    var k := 0;
    while k < end && k < slots
      invariant 0 <= k <= Min(end, slots)
      invariant out.bytes == PutCodes(old(out.bytes), codes, n, inputs, k)
    {
      PutSlot(out, codes, n, inputs, k);
      k := k + 1;
    }
  }

  method ListWrites(read: Eeprom, out: Eeprom) returns (writes: seq<(int, byte)>)
    ensures writes == Diff(read.bytes, out.bytes, |read.bytes|)
  {
    writes := [];
    for a := 0 to EEPROM_SIZE
      invariant writes == Diff(read.bytes, out.bytes, a)
    {
      if out.bytes[a] >= 0 && out.bytes[a] != read.bytes[a] {
        writes := writes + [(a, out.bytes[a])];
      }
    }
  }

  method PlanInput(read: Eeprom, out: Eeprom, want: seq<InputSettings>, inputs: nat, n: nat)
    returns (error: PlanError)
    requires 1 <= n <= inputs == |want| <= MAX_INPUTS && read != out
    requires out.bytes == PlanUpTo(read.bytes, want, inputs, n - 1)
    modifies out
    ensures error.NoError? <==> InputPlannable(read.bytes, want, inputs, n)
    ensures error.NoError? ==> out.bytes == PlanUpTo(read.bytes, want, inputs, n)
    ensures error.NotRead? ==> !FlagsRead(read.bytes, n)
    ensures error.TooManyCodes? ==> error.n == n && |want[n - 1].ir| > IrSlots(inputs)
    ensures !error.WrongInputs?
  {
    hide SlotsWritten;
    hide PutCodes;
    hide PutFlags;
    hide FlagsRead;
    PlanKeepsRead(read.bytes, want, inputs, n - 1, n);
    var ok := PutInputFlags(out, want[n - 1], n);
    if !ok {
      return NotRead;
    }
    if |want[n - 1].ir| > IrSlots(inputs) {
      return TooManyCodes(n);
    }
    PutInputCodes(read, out, want[n - 1].ir, n, inputs);
    return NoError;
  }

  method PlanWrites(read: Eeprom, want: seq<InputSettings>, inputs: int)
    returns (error: PlanError, writes: seq<(int, byte)>)
    ensures error.NoError? <==> Plannable(read.bytes, want, inputs)
    ensures writes == if error.NoError? then Writes(read.bytes, want) else []
    ensures error.WrongInputs? <==> |want| != inputs || inputs < 1 || inputs > MAX_INPUTS
    ensures error.TooManyCodes? ==> 1 <= error.n <= inputs && !InputPlannable(read.bytes, want, inputs, error.n)
  {
    hide PlanUpTo;
    hide InputPlannable;
    writes := [];
    if |want| != inputs || inputs < 1 || inputs > MAX_INPUTS {
      return WrongInputs, [];
    }
    var out := new Eeprom.Copy(read);
    PlanStart(read.bytes, want, inputs);
    for n := 1 to inputs + 1
      invariant fresh(out) && out.bytes == PlanUpTo(read.bytes, want, inputs, n - 1)
      invariant forall i :: 1 <= i < n ==> InputPlannable(read.bytes, want, inputs, i)
    {
      error := PlanInput(read, out, want, inputs, n);
      if !error.NoError? {
        return error, [];
      }
    }
    writes := ListWrites(read, out);
    return NoError, writes;
  }
}
