// A request to save settings, from what the client sends to what the switch holds
// (src/platform/esp32/main/web_server.cpp and src/platform/esp32/main/svs_settings.cpp).
module SettingsRequest {
  import opened Bytes
  import opened SvsConfig
  import opened PlanLemmas
  import opened PlanTheorems
  import opened SvsSettings
  import opened Switch
  import opened TranscoderSettings

  // One input as it is sent. A code is a list of numbers, -1 standing for what is not a number.
  datatype RawInput = RawInput(
    autoProfile: bool,
    rgsb: bool,
    syncBypass: bool,
    rgbToYpbpr: bool,
    ypbprToRgb: bool,
    ir: seq<seq<int>>)

  predicate ValidCode(pair: seq<int>) {
    |pair| == 2 && 0 <= pair[0] < 0xFF && 0 <= pair[1] <= 0xFF
  }

  function CodeOf(pair: seq<int>): IrCode
    requires ValidCode(pair)
  {
    IrCode(pair[0], pair[1])
  }

  predicate ValidInput(raw: RawInput) { forall k :: 0 <= k < |raw.ir| ==> ValidCode(raw.ir[k]) }

  predicate ValidRequest(raws: seq<RawInput>) { forall i :: 0 <= i < |raws| ==> ValidInput(raws[i]) }

  function CodesOf(ir: seq<seq<int>>): seq<IrCode>
    requires forall k :: 0 <= k < |ir| ==> ValidCode(ir[k])
  {
    seq(|ir|, k requires 0 <= k < |ir| => CodeOf(ir[k]))
  }

  function InputOf(raw: RawInput): InputSettings
    requires ValidInput(raw)
  {
    InputSettings(raw.autoProfile, raw.rgsb, raw.syncBypass, raw.rgbToYpbpr, raw.ypbprToRgb, CodesOf(raw.ir))
  }

  function InputsOf(raws: seq<RawInput>): (r: seq<InputSettings>)
    requires ValidRequest(raws)
    ensures |r| == |raws|
  {
    seq(|raws|, i requires 0 <= i < |raws| => InputOf(raws[i]))
  }

  method ParseCodes(ir: seq<seq<int>>) returns (ok: bool, codes: seq<IrCode>)
    ensures ok <==> forall k :: 0 <= k < |ir| ==> ValidCode(ir[k])
    ensures ok ==> codes == CodesOf(ir)
  {
    codes := [];
    for k := 0 to |ir|
      invariant forall j :: 0 <= j < k ==> ValidCode(ir[j])
      invariant codes == CodesOf(ir[..k])
    {
      if |ir[k]| != 2 || ir[k][0] < 0 || ir[k][0] >= 0xFF || ir[k][1] < 0 || ir[k][1] > 0xFF {
        return false, codes;
      }
      codes := codes + [IrCode(ir[k][0], ir[k][1])];
    }
    assert ir[..|ir|] == ir;
    ok := true;
  }

  // Refused exactly when some code is not a pair of an address below the empty mark and a byte
  method ParseRequest(raws: seq<RawInput>) returns (ok: bool, want: seq<InputSettings>)
    ensures ok <==> ValidRequest(raws)
    ensures ok ==> want == InputsOf(raws)
  {
    want := [];
    for i := 0 to |raws|
      invariant ValidRequest(raws[..i]) && want == InputsOf(raws[..i])
    {
      var codes;
      ok, codes := ParseCodes(raws[i].ir);
      if !ok {
        assert !ValidInput(raws[i]);
        return;
      }
      var r := raws[i];
      want := want + [InputSettings(r.autoProfile, r.rgsb, r.syncBypass, r.rgbToYpbpr, r.ypbprToRgb, codes)];
      assert raws[..i + 1] == raws[..i] + [r];
    }
    assert raws[..|raws|] == raws;
    ok := true;
  }

  // So no code of an accepted request ends its own list.
  lemma NoEmptyRequested(r: Snapshot, raws: seq<RawInput>, i: nat)
    requires ValidRequest(raws) && Sized(r) && |raws| == r.inputs && i < |raws|
    ensures NoEmptyAddress(GuardAll(r, InputsOf(raws))[i].ir)
  {
    var codes := GuardAll(r, InputsOf(raws))[i].ir;
    assert codes == CodesOf(raws[i].ir) && ValidInput(raws[i]);
    assert forall k :: 0 <= k < |codes| ==> ValidCode(raws[i].ir[k]) && codes[k] == CodeOf(raws[i].ir[k]);
  }

  // ----- What a save owes the client, byte by byte -----

  // Input n's bit of the bitmap at this address
  predicate BitAt(dev: Device, bitmap: nat, n: nat)
    requires 1 <= n <= MAX_INPUTS && bitmap <= 1000
  {
    Bit(dev[bitmap + (n - 1) / 8], (n - 1) % 8)
  }

  // A cleared bit at 630 or at 670 is an input with a SCART or a VGA module of version 3
  predicate HasScart(dev: Device, n: nat)
    requires 1 <= n <= MAX_INPUTS
  {
    !BitAt(dev, 630, n)
  }

  predicate HasVga(dev: Device, n: nat)
    requires 1 <= n <= MAX_INPUTS
  {
    !BitAt(dev, 670, n)
  }

  // The codes of an input are the bytes of its column in the first 250, row by row, and those 250 behind them, and end
  // with the last row or an 0xFF
  predicate CodesStored(dev: Device, n: nat, inputs: nat, codes: seq<seq<int>>)
    requires forall k :: 0 <= k < |codes| ==> ValidCode(codes[k])
  {
    && |codes| <= 250 / (inputs + 1)
    && (forall k :: 0 <= k < |codes| ==> CodeStored(dev, n + Row(k, inputs), codes[k]))
    && (|codes| < 250 / (inputs + 1) ==> Get(dev, n + Row(|codes|, inputs)) == 0xFF)
  }

  predicate CodeStored(dev: Device, a: nat, code: seq<int>)
    requires ValidCode(code)
  {
    a < 250 && dev[a] == code[0] && dev[a + 250] == code[1]
  }

  // What the client asked for input n, as far as its hardware has it, is what the EEPROM holds; the rest is as before
  predicate Granted(before: Device, after: Device, raws: seq<RawInput>, n: nat)
    requires 1 <= n <= |raws| <= MAX_INPUTS
  {
    var raw := raws[n - 1];
    && ValidInput(raw)
    && BitAt(after, 513, n) == raw.autoProfile
    && BitAt(after, 550, n) == (if HasScart(before, n) || HasVga(before, n) then !raw.rgsb else BitAt(before, 550, n))
    && BitAt(after, 590, n) == (if HasScart(before, n) then raw.syncBypass else BitAt(before, 590, n))
    && CodesStored(after, n, |raws|, raw.ir)
  }

  // A 0 at 710 or at 711 is a switch with the transcoder to component or to RGB
  predicate TxGranted(dev: Device, before: nat -> Transcoders, after: nat -> Transcoders, raws: seq<RawInput>, n: nat)
    requires 1 <= n <= |raws|
  {
    && after(n).toYpbpr == (if dev[710] == 0 then raws[n - 1].rgbToYpbpr else before(n).toYpbpr)
    && after(n).toRgb == (if dev[711] == 0 then raws[n - 1].ypbprToRgb else before(n).toRgb)
  }

  predicate AllGranted(before: Device, after: Device, raws: seq<RawInput>)
    requires |raws| <= MAX_INPUTS
  {
    forall n :: 1 <= n <= |raws| ==> Granted(before, after, raws, n)
  }

  predicate AllTxGranted(dev: Device, before: nat -> Transcoders, after: nat -> Transcoders, raws: seq<RawInput>) {
    forall n :: 1 <= n <= |raws| ==> TxGranted(dev, before, after, raws, n)
  }

  lemma FlagIsBit(dev: Device, f: Flag, n: nat)
    requires 1 <= n <= MAX_INPUTS
    ensures var bitmap := match f case AutoProfile => 513 case Rgsb => 550 case SyncBypass => 590 case ScartV3 => 630
                                  case VgaV3 => 670;
            var bit := BitAt(dev, bitmap, n);
            FlagOf(dev, f, n) == if f == AutoProfile || f == SyncBypass then bit else !bit
  {
    hide Bit;
  }

  lemma GrantedFlags(r: Snapshot, dev: Device, raws: seq<RawInput>, n: nat)
    requires Complete(r, dev) && Sized(r) && ValidRequest(raws) && |raws| == r.inputs
    requires 1 <= n <= r.inputs <= MAX_INPUTS
    ensures var want, raw := GuardAll(r, InputsOf(raws))[n - 1], raws[n - 1];
            && want.autoProfile == raw.autoProfile && want.ir == CodesOf(raw.ir)
            && want.rgsb == (if HasScart(dev, n) || HasVga(dev, n) then raw.rgsb else !BitAt(dev, 550, n))
            && want.syncBypass == (if HasScart(dev, n) then raw.syncBypass else BitAt(dev, 590, n))
            && (dev[710] == 0 ==> want.rgbToYpbpr == raw.rgbToYpbpr)
            && (dev[711] == 0 ==> want.ypbprToRgb == raw.ypbprToRgb)
            && (r.hardware.txRgbToYpbpr <==> dev[710] == 0) && (r.hardware.txYpbprToRgb <==> dev[711] == 0)
  {
    hide BitAt;
    hide FlagOf;
    hide ListRead;
    hide DecodeIr;
    hide CodesOf;
    assert SettingsMatch(r.settings, dev, r.inputs, n) && ValidInput(raws[n - 1]);
    assert r.hardware.scartV3[n - 1] == FlagOf(dev, ScartV3, n) && r.hardware.vgaV3[n - 1] == FlagOf(dev, VgaV3, n);
    FlagIsBit(dev, ScartV3, n);
    FlagIsBit(dev, VgaV3, n);
    FlagIsBit(dev, Rgsb, n);
    FlagIsBit(dev, SyncBypass, n);
  }

  lemma ListIsStored(dev: Device, n: nat, inputs: nat, ir: seq<seq<int>>)
    requires forall k :: 0 <= k < |ir| ==> ValidCode(ir[k])
    requires 1 <= n <= inputs && |ir| <= IrSlots(inputs) && HoldsList(dev, n, inputs, CodesOf(ir))
    ensures CodesStored(dev, n, inputs, ir)
  {
    hide Row;
    forall k | 0 <= k < |ir|
      ensures CodeStored(dev, n + Row(k, inputs), ir[k])
    {
      SlotsFit(n, k, inputs);
      assert HoldsSlot(dev, n, inputs, CodesOf(ir), k);
    }
    if |ir| < IrSlots(inputs) {
      assert HoldsSlot(dev, n, inputs, CodesOf(ir), |ir|);
    }
  }

  // A save that succeeds grants every input what the client asked for it.
  lemma SaveGrants(r: Snapshot, dev: Device, raws: seq<RawInput>, n: nat)
    requires Complete(r, dev) && Sized(r) && ValidRequest(raws) && |raws| == r.inputs
    requires 1 <= n <= r.inputs <= MAX_INPUTS
    requires Plannable(r.view, GuardAll(r, InputsOf(raws)), r.inputs)
    ensures Granted(dev, Apply(dev, Writes(r.view, GuardAll(r, InputsOf(raws)))), raws, n)
  {
    hide Complete;
    hide BitAt;
    hide FlagOf;
    hide Apply;
    hide Diff;
    hide PlanUpTo;
    hide HoldsList;
    hide CodesStored;
    hide CodesOf;
    var want := GuardAll(r, InputsOf(raws));
    var after := Apply(dev, Writes(r.view, want));
    assert ValidInput(raws[n - 1]);
    GrantedFlags(r, dev, raws, n);
    CompleteAgrees(r, dev);
    WrittenHolds(dev, r.view, want, n);
    FlagIsBit(after, AutoProfile, n);
    FlagIsBit(after, Rgsb, n);
    FlagIsBit(after, SyncBypass, n);
    assert InputPlannable(r.view, want, r.inputs, n);
    CodesCount(raws[n - 1].ir);
    ListIsStored(after, n, r.inputs, raws[n - 1].ir);
  }

  lemma CodesCount(ir: seq<seq<int>>)
    requires forall k :: 0 <= k < |ir| ==> ValidCode(ir[k])
    ensures |CodesOf(ir)| == |ir|
  {
  }

  lemma CompleteAgrees(r: Snapshot, dev: Device)
    requires Complete(r, dev)
    ensures Agrees(r.view, dev)
  {
  }

  // So do its transcoders, if the switch does what it is told about them.
  lemma SaveGrantsTx(line: Line, told: nat, dev: Device, tx: nat -> Transcoders, r: Snapshot, raws: seq<RawInput>,
                     n: nat)
    requires r.inputs <= MAX_INPUTS && r == SnapshotOf(dev, tx, r.inputs) && Complete(r, dev) && Sized(r)
    requires ValidRequest(raws) && |raws| == r.inputs && 1 <= n <= r.inputs
    requires Obeyed(line, told, Changes(GuardAll(r, InputsOf(raws)), r.settings, r.inputs))
    ensures var cs := Changes(GuardAll(r, InputsOf(raws)), r.settings, r.inputs);
            TxGranted(dev, tx, TxAfter(line, told, tx, cs, |cs|), raws, n)
  {
    hide Complete;
    hide SnapshotOf;
    hide TxAfter;
    hide Changes;
    hide BitAt;
    var want := GuardAll(r, InputsOf(raws));
    var cs := Changes(want, r.settings, r.inputs);
    ChangesExact(want, r.settings, r.inputs);
    ReadTxTrue(dev, tx, r.inputs);
    GuardedFitted(r, InputsOf(raws));
    GrantedFlags(r, dev, raws, n);
    forall k: bool
      ensures TxFlag(TxAfter(line, told, tx, cs, |cs|)(n), k) ==
              if TxFlag(FittedTx(r.hardware), k) then TxWanted(want[n - 1], k) else TxFlag(tx(n), k)
    {
      OneTxGranted(line, told, tx, cs, want, r.settings, FittedTx(r.hardware), n, k);
    }
    assert TxFlag(TxAfter(line, told, tx, cs, |cs|)(n), true) == TxAfter(line, told, tx, cs, |cs|)(n).toYpbpr;
    assert TxFlag(TxAfter(line, told, tx, cs, |cs|)(n), false) == TxAfter(line, told, tx, cs, |cs|)(n).toRgb;
  }

  lemma OneTxGranted(line: Line, told: nat, tx: nat -> Transcoders, cs: seq<TxChange>, want: seq<InputSettings>,
                     before: seq<InputSettings>, fitted: Transcoders, n: nat, k: bool)
    requires |want| == |before| && 1 <= n <= |want| && ListsChanges(cs, want, before, |want|) && Obeyed(line, told, cs)
    requires AllTxTrue(before, tx, fitted) && OnlyFitted(want, before, fitted)
    ensures TxFlag(TxAfter(line, told, tx, cs, |cs|)(n), k) ==
            if TxFlag(fitted, k) then TxWanted(want[n - 1], k) else TxFlag(tx(n), k)
  {
    hide TxAfter;
    TxAt(line, told, tx, cs, |cs|, n, k);
    ChangeOrNot(cs, want, before, n, k);
    assert TxTrue(before, tx, fitted, n, k);
  }

  // What the switch and its line have to do for a read and a save of these settings to succeed: answer every
  // question of the read, carry every command, hold every byte and answer for it, and show each input whose
  // transcoders are to be set. Lists that do not fit and another number of inputs are refused.
  ghost predicate SaveWorks(svs: Svs, inputs: nat, wanted: seq<InputSettings>)
    requires inputs <= MAX_INPUTS
    reads svs
  {
    && AllWork(svs.answers, svs.asked, ReadAsks(svs.eeprom, inputs))
    && |wanted| == inputs && AllFit(wanted, inputs)
    && var r := SnapshotOf(svs.eeprom, svs.transcoders, inputs);
       var w, cs := Writes(r.view, GuardAll(r, wanted)), Changes(GuardAll(r, wanted), r.settings, inputs);
       && AllWork(svs.carries, svs.told, |w|)
       && WillHold(svs.eeprom, w, svs.keeps, svs.told)
       && AllWork(svs.answers, svs.asked + ReadAsks(svs.eeprom, inputs), |w|)
       && StepsWork(LineOf(svs), svs.told + |w|, svs.shown, cs, |cs|)
  }

  // The switch does what it is told about every transcoder of the save, and the checks are answered
  ghost predicate TxObeyed(svs: Svs, inputs: nat, want: seq<InputSettings>)
    requires inputs == |want|
    reads svs
  {
    var r := SnapshotOf(svs.eeprom, svs.transcoders, inputs);
    Obeyed(LineOf(svs), svs.told + |Writes(r.view, want)|, Changes(want, r.settings, inputs))
  }

  ghost predicate TxAnswered(svs: Svs, inputs: nat, want: seq<InputSettings>)
    requires inputs == |want|
    reads svs
  {
    var r := SnapshotOf(svs.eeprom, svs.transcoders, inputs);
    AllWork(svs.answers, svs.asked + ReadAsks(svs.eeprom, inputs) + |Writes(r.view, want)|,
            |Changes(want, r.settings, inputs)|)
  }

  // Reading, guarding and saving what a client asks for. It succeeds if and only if the request is valid and
  // the switch plays along, and then every input of the device decodes to its guarded settings, and holds byte by byte
  // what the client asked for it as far as the hardware has it. A fresh read then
  // gives these settings, transcoders included, if and only if the switch has done what it was told about each
  // transcoder; and no input is reported as unconfirmed if and only if it has, and has answered for each.
  method ReadAndSave(svs: Svs, inputs: nat, raws: seq<RawInput>)
    returns (ok: bool, want: seq<InputSettings>, unconfirmed: seq<nat>)
    requires 1 <= inputs <= MAX_INPUTS
    modifies svs`eeprom, svs`asked, svs`told, svs`shown, svs`transcoders
    ensures ok <==> ValidRequest(raws) && old(SaveWorks(svs, inputs, InputsOf(raws)))
    ensures ok ==> |raws| == inputs
    ensures ok ==>
              var r := SnapshotOf(old(svs.eeprom), old(svs.transcoders), inputs);
              && want == GuardAll(r, InputsOf(raws)) && svs.eeprom == Apply(old(svs.eeprom), Writes(r.view, want))
              && (forall n :: 1 <= n <= inputs ==> SettingsMatch(want, svs.eeprom, inputs, n))
              && AllGranted(old(svs.eeprom), svs.eeprom, raws)
              && (old(TxObeyed(svs, inputs, want)) ==>
                    AllTxGranted(old(svs.eeprom), old(svs.transcoders), svs.transcoders, raws))
    ensures ok ==>
              var again := SnapshotOf(svs.eeprom, svs.transcoders, inputs).settings;
              && (again == want <==> old(TxObeyed(svs, inputs, want)))
              && (unconfirmed == [] <==> old(TxObeyed(svs, inputs, want)) && old(TxAnswered(svs, inputs, want)))
  {
    hide DecodeIr;
    hide ReadPart;
    hide Complete;
    hide Plannable;
    hide Diff;
    hide Apply;
    hide WillHold;
    hide ReadAsks;
    hide InputsOf;
    hide SnapshotOf;
    hide SettingsMatch;
    hide AllWork;
    hide Writes;
    hide Planned;
    hide Refresh;
    hide PartWritten;
    hide DecodedAll;
    hide StopsAt;
    hide ValidRequest;
    hide AllFit;
    hide Changes;
    hide StepsWork;
    hide StepWorks;
    hide TxAfter;
    hide TxEnds;
    hide Obeyed;
    hide Unconfirmed;
    hide GuardAll;
    hide AllGranted;
    hide AllTxGranted;
    unconfirmed := [];
    SnapshotSized(svs.eeprom, svs.transcoders, inputs);
    var read := ReadTask(svs, inputs);
    if read.NoAnswer? {
      return false, [], [];
    }
    var r := read.snapshot;
    var wanted;
    ok, wanted := ParseRequest(raws);
    if !ok {
      return false, [], [];
    }
    ok, want := GuardSettings(r, wanted);
    if !ok {
      return;
    }
    GuardedSized(r, wanted);
    GuardedPlans(r, svs.eeprom, wanted);
    ghost var dev, tx, told, asked, shown := svs.eeprom, svs.transcoders, svs.told, svs.asked, svs.shown;
    ghost var w := Writes(r.view, want);
    var outcome, made := WriteTask(svs, r, want);
    ok := outcome.Saved?;
    if Written(outcome) {
      ghost var cs := Changes(want, r.settings, r.inputs);
      EndsSaved(LineOf(svs), told + |w|, asked + |w|, shown, tx, cs, made, r, Refresh(r.view, w), outcome);
    }
    if ok {
      unconfirmed := outcome.unconfirmed;
      SavedAll(r, dev, raws);
      SaveGrantsAll(LineOf(svs), told + |w|, dev, tx, r, raws);
      SavedTranscoders(LineOf(svs), told + |w|, asked + |w|, dev, tx, r, wanted, svs.eeprom);
    }
  }

  lemma GuardedSized(r: Snapshot, wanted: seq<InputSettings>)
    requires Sized(r) && |wanted| == r.inputs
    ensures |GuardAll(r, wanted)| == r.inputs
  {
  }

  // ----- Afterwards -----

  function FittedTx(hw: Hardware): Transcoders { Transcoders(hw.txRgbToYpbpr, hw.txYpbprToRgb) }

  lemma ReadTxTrue(dev: Device, tx: nat -> Transcoders, inputs: nat)
    ensures var r := SnapshotOf(dev, tx, inputs); AllTxTrue(r.settings, tx, FittedTx(r.hardware))
  {
    hide DecodeIr;
    hide ReadPart;
    hide FlagOf;
    var r := SnapshotOf(dev, tx, inputs);
    forall n, k | 1 <= n <= inputs
      ensures TxTrue(r.settings, tx, FittedTx(r.hardware), n, k)
    {
      assert r.settings[n - 1] == Decode(dev, n, inputs, TxSettings(r.hardware, tx(n)));
    }
  }

  lemma GuardedFitted(r: Snapshot, wanted: seq<InputSettings>)
    requires Sized(r) && |wanted| == r.inputs
    ensures OnlyFitted(GuardAll(r, wanted), r.settings, FittedTx(r.hardware))
  {
    forall n, k | 1 <= n <= r.inputs && TxDiffers(GuardAll(r, wanted), r.settings, n, k)
      ensures TxFlag(FittedTx(r.hardware), k)
    {
      assert GuardAll(r, wanted)[n - 1] == GuardInput(wanted[n - 1], r.settings[n - 1], r.hardware, n - 1);
    }
  }

  lemma FreshInput(dev: Device, tx: nat -> Transcoders, inputs: nat, want: seq<InputSettings>, n: nat)
    requires 1 <= n <= inputs == |want| && SettingsMatch(want, dev, inputs, n)
    ensures var hw := DecodeHardware(dev, inputs);
            Decode(dev, n, inputs, TxSettings(hw, tx(n))) == want[n - 1] <==>
            TxTrue(want, tx, FittedTx(hw), n, true) && TxTrue(want, tx, FittedTx(hw), n, false)
  {
    hide DecodeIr;
    hide FlagOf;
    hide DecodeHardware;
    assert Decode(dev, n, inputs, want[n - 1]) == want[n - 1];
  }

  // A fresh read gives settings that the EEPROM decodes to if and only if the transcoders are as they say.
  lemma FreshRead(dev: Device, tx: nat -> Transcoders, inputs: nat, want: seq<InputSettings>)
    requires |want| == inputs && forall n :: 1 <= n <= inputs ==> SettingsMatch(want, dev, inputs, n)
    ensures SnapshotOf(dev, tx, inputs).settings == want
            <==> AllTxTrue(want, tx, FittedTx(DecodeHardware(dev, inputs)))
  {
    hide DecodeIr;
    hide ReadPart;
    hide FlagOf;
    var r, fitted := SnapshotOf(dev, tx, inputs), FittedTx(DecodeHardware(dev, inputs));
    forall n | 1 <= n <= inputs
      ensures r.settings[n - 1] == want[n - 1]
              <==> TxTrue(want, tx, fitted, n, true) && TxTrue(want, tx, fitted, n, false)
    {
      assert SettingsMatch(want, dev, inputs, n);
      FreshInput(dev, tx, inputs, want, n);
    }
    if AllTxTrue(want, tx, fitted) {
      forall i | 0 <= i < inputs
        ensures r.settings[i] == want[i]
      {
        assert TxTrue(want, tx, fitted, i + 1, true) && TxTrue(want, tx, fitted, i + 1, false);
      }
    }
    if r.settings == want {
      forall n, k | 1 <= n <= |want|
        ensures TxTrue(want, tx, fitted, n, k)
      {
        assert r.settings[n - 1] == want[n - 1];
      }
    }
  }

  lemma SaveGrantsAll(line: Line, told: nat, dev: Device, tx: nat -> Transcoders, r: Snapshot, raws: seq<RawInput>)
    requires 1 <= r.inputs <= MAX_INPUTS && r == SnapshotOf(dev, tx, r.inputs) && Complete(r, dev) && Sized(r)
    requires ValidRequest(raws) && |raws| == r.inputs && Plannable(r.view, GuardAll(r, InputsOf(raws)), r.inputs)
    ensures var want := GuardAll(r, InputsOf(raws));
            var cs := Changes(want, r.settings, r.inputs);
            && AllGranted(dev, Apply(dev, Writes(r.view, want)), raws)
            && (Obeyed(line, told, cs) ==> AllTxGranted(dev, tx, TxAfter(line, told, tx, cs, |cs|), raws))
  {
    hide Complete;
    hide SnapshotOf;
    hide Plannable;
    hide Apply;
    hide Writes;
    hide Changes;
    hide TxAfter;
    hide Obeyed;
    hide Granted;
    hide TxGranted;
    hide ValidRequest;
    var want := GuardAll(r, InputsOf(raws));
    var cs := Changes(want, r.settings, r.inputs);
    forall n | 1 <= n <= |raws|
      ensures Granted(dev, Apply(dev, Writes(r.view, want)), raws, n)
      ensures Obeyed(line, told, cs) ==> TxGranted(dev, tx, TxAfter(line, told, tx, cs, |cs|), raws, n)
    {
      SaveGrants(r, dev, raws, n);
      if Obeyed(line, told, cs) {
        SaveGrantsTx(line, told, dev, tx, r, raws, n);
      }
    }
  }

  lemma SavedAll(r: Snapshot, dev: Device, raws: seq<RawInput>)
    requires Complete(r, dev) && Sized(r) && ValidRequest(raws) && |raws| == r.inputs
    requires Plannable(r.view, GuardAll(r, InputsOf(raws)), r.inputs)
    ensures var want := GuardAll(r, InputsOf(raws));
            forall n :: 1 <= n <= r.inputs ==> SettingsMatch(want, Apply(dev, Writes(r.view, want)), r.inputs, n)
  {
    hide Complete;
    hide Plannable;
    hide SettingsMatch;
    hide Apply;
    hide Writes;
    forall n | 1 <= n <= r.inputs
      ensures var want := GuardAll(r, InputsOf(raws));
              SettingsMatch(want, Apply(dev, Writes(r.view, want)), r.inputs, n)
    {
      SavedMatches(r, dev, raws, n);
    }
  }

  lemma SavedTranscoders(line: Line, told: nat, asked: nat, dev: Device, tx: nat -> Transcoders, r: Snapshot,
                         wanted: seq<InputSettings>, after: Device)
    requires r.inputs <= MAX_INPUTS && r == SnapshotOf(dev, tx, r.inputs) && Complete(r, dev)
    requires Sized(r) && |wanted| == r.inputs && Plannable(r.view, GuardAll(r, wanted), r.inputs)
    requires after == Apply(dev, Writes(r.view, GuardAll(r, wanted)))
    requires forall n :: 1 <= n <= r.inputs ==> SettingsMatch(GuardAll(r, wanted), after, r.inputs, n)
    ensures var want := GuardAll(r, wanted);
            var cs := Changes(want, r.settings, r.inputs);
            && (SnapshotOf(after, TxAfter(line, told, tx, cs, |cs|), r.inputs).settings == want
                <==> Obeyed(line, told, cs))
            && (Unconfirmed(line, told, asked, tx, cs, |cs|) == []
                <==> Obeyed(line, told, cs) && AllWork(line.answers, asked, |cs|))
  {
    hide Complete;
    hide Plannable;
    hide SettingsMatch;
    hide Apply;
    hide Writes;
    hide SnapshotOf;
    hide DecodeHardware;
    hide TxAfter;
    hide Changes;
    hide Unconfirmed;
    hide Obeyed;
    hide AllTxTrue;
    hide OnlyFitted;
    hide AllWork;
    var want := GuardAll(r, wanted);
    var cs := Changes(want, r.settings, r.inputs);
    ReadTxTrue(dev, tx, r.inputs);
    GuardedFitted(r, wanted);
    TxWantedExact(line, told, tx, FittedTx(r.hardware), want, r.settings);
    ConfirmedExact(line, told, asked, tx, FittedTx(r.hardware), want, r.settings);
    SameHardware(r, dev, want);
    FreshRead(after, TxAfter(line, told, tx, cs, |cs|), r.inputs, want);
  }

  lemma SameHardware(r: Snapshot, dev: Device, want: seq<InputSettings>)
    requires Complete(r, dev) && Plannable(r.view, want, r.inputs)
    ensures DecodeHardware(Apply(dev, Writes(r.view, want)), r.inputs) == r.hardware
  {
    hide Apply;
    hide Writes;
    hide Complete;
    hide Plannable;
    StaysComplete(r, dev, want);
  }

  lemma SnapshotSized(dev: Device, transcoders: nat -> Transcoders, inputs: nat)
    ensures Sized(SnapshotOf(dev, transcoders, inputs)) && SnapshotOf(dev, transcoders, inputs).inputs == inputs
  {
  }

  lemma GuardedPlans(r: Snapshot, dev: Device, wanted: seq<InputSettings>)
    requires Complete(r, dev) && Sized(r) && |wanted| == r.inputs && AllFit(wanted, r.inputs)
    requires 1 <= r.inputs <= MAX_INPUTS
    ensures Plannable(r.view, GuardAll(r, wanted), r.inputs)
  {
    hide ListRead;
    hide Plannable;
    CompletePlans(r, dev, GuardAll(r, wanted));
  }

  lemma SavedMatches(r: Snapshot, dev: Device, raws: seq<RawInput>, n: nat)
    requires Complete(r, dev) && Sized(r) && ValidRequest(raws) && |raws| == r.inputs && 1 <= n <= r.inputs
    requires Plannable(r.view, GuardAll(r, InputsOf(raws)), r.inputs)
    ensures var want := GuardAll(r, InputsOf(raws));
            SettingsMatch(want, Apply(dev, Writes(r.view, want)), r.inputs, n)
  {
    hide Apply;
    hide Diff;
    hide PlanUpTo;
    hide ListRead;
    hide Plannable;
    NoEmptyRequested(r, raws, n - 1);
    WriteEndToEnd(dev, r.view, GuardAll(r, InputsOf(raws)), n);
  }
}
