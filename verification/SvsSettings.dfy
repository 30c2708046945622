// Reading and writing the switch's settings over the serial line (src/platform/esp32/main/svs_settings.cpp).
module SvsSettings {
  import opened Bytes
  import opened SvsConfig
  import opened PlanLemmas
  import opened PlanTheorems
  import opened EepromView
  import opened Switch
  import opened TranscoderSettings

  datatype Hardware = Hardware(txRgbToYpbpr: bool, txYpbprToRgb: bool, scartV3: seq<bool>, vgaV3: seq<bool>)

  function DecodeHardware(view: View, inputs: nat): Hardware {
    Hardware(Get(view, TX_RGB_TO_YPBPR) == 0,
             Get(view, TX_YPBPR_TO_RGB) == 0,
             FlagBits(view, ScartV3, inputs),
             FlagBits(view, VgaV3, inputs))
  }

  function FlagBits(view: View, f: Flag, inputs: nat): seq<bool> {
    seq(inputs, i requires 0 <= i => FlagOf(view, f, i + 1))
  }

  // What a read leaves behind
  datatype Snapshot = Snapshot(view: View, inputs: nat, hardware: Hardware, settings: seq<InputSettings>)

  // ----- What a read asks for -----

  // An address of one of the five bitmaps, or of the two bytes that say which transcoders are fitted
  predicate IsBitmapAddress(a: nat, inputs: nat) {
    || (exists f: Flag :: Base(f) <= a < Base(f) + BitmapBytes(inputs))
    || a == TX_RGB_TO_YPBPR
    || a == TX_YPBPR_TO_RGB
  }

  const BITMAPS := 5

  // How many of input n's slots are read from slot k on: up to and with the first empty one
  function SlotsAsked(dev: Device, n: nat, inputs: nat, k: nat): nat
    decreases IrSlots(inputs) - k
  {
    if k >= IrSlots(inputs) then 0
    else if Get(dev, IrAddressAddr(n, k, inputs)) == IR_EMPTY then 1
    else 1 + SlotsAsked(dev, n, inputs, k + 1)
  }

  // The questions for the slots of inputs 1..m
  function ListAsks(dev: Device, inputs: nat, m: nat): nat {
    if m == 0 then 0 else ListAsks(dev, inputs, m - 1) + 2 * SlotsAsked(dev, m, inputs, 0)
  }

  function Fitted(hw: Hardware): nat {
    (if hw.txRgbToYpbpr then 1 else 0) + (if hw.txYpbprToRgb then 1 else 0)
  }

  function BitmapAsks(inputs: nat): nat { BITMAPS * BitmapBytes(inputs) + 2 }

  // All the questions of a read
  function ReadAsks(dev: Device, inputs: nat): nat {
    BitmapAsks(inputs) + inputs * Fitted(DecodeHardware(dev, inputs)) + ListAsks(dev, inputs, inputs)
  }

  // The bytes asked for once inputs before m and the first `last` slots of input m are done
  predicate Asked(dev: Device, inputs: nat, m: nat, last: nat, a: nat) {
    || IsBitmapAddress(a, inputs)
    || match Locate(a, inputs)
       case IrAddress(n, k) => (n < m && k < SlotsAsked(dev, n, inputs, 0)) || (n == m && k < last)
       case IrCommand(n, k) => (n < m && k < SlotsAsked(dev, n, inputs, 0)) || (n == m && k < last)
       case _ => false
  }

  function ReadPart(dev: Device, inputs: nat, m: nat, last: nat): View {
    seq(EEPROM_SIZE, a requires 0 <= a < EEPROM_SIZE => if Asked(dev, inputs, m, last, a) then dev[a] else UNREAD)
  }

  // The view that a read of the device ends with
  function ReadView(dev: Device, inputs: nat): View { ReadPart(dev, inputs, inputs + 1, 0) }

  // The settings before the EEPROM part of them is decoded
  function TxSettings(hw: Hardware, tx: Transcoders): InputSettings {
    DEFAULT_SETTINGS.(rgbToYpbpr := hw.txRgbToYpbpr && tx.toYpbpr, ypbprToRgb := hw.txYpbprToRgb && tx.toRgb)
  }

  function AllTxSettings(hw: Hardware, transcoders: nat -> Transcoders, inputs: nat): seq<InputSettings> {
    seq(inputs, i requires 0 <= i => TxSettings(hw, transcoders(i + 1)))
  }

  // What a read of the device leaves behind: a part of its bytes, but the settings of the whole
  function SnapshotOf(dev: Device, transcoders: nat -> Transcoders, inputs: nat): Snapshot {
    var hw := DecodeHardware(dev, inputs);
    Snapshot(ReadView(dev, inputs), inputs, hw,
             seq(inputs, i requires 0 <= i => Decode(dev, i + 1, inputs, TxSettings(hw, transcoders(i + 1)))))
  }

  method BitmapAddresses(inputs: nat) returns (out: seq<nat>)
    ensures forall a :: a in out <==> IsBitmapAddress(a, inputs)
    ensures |out| == BITMAPS * BitmapBytes(inputs) + 2
  {
    out := [];
    var flags := [AutoProfile, Rgsb, SyncBypass, ScartV3, VgaV3];
    for b := 0 to |flags|
      invariant |out| == b * BitmapBytes(inputs)
      invariant forall a :: a in out <==> exists f :: f in flags[..b] && Base(f) <= a < Base(f) + BitmapBytes(inputs)
    {
      ghost var before := out;
      for i := 0 to BitmapBytes(inputs)
        invariant |out| == |before| + i
        invariant forall a :: a in out <==> a in before || Base(flags[b]) <= a < Base(flags[b]) + i
      {
        out := out + [Base(flags[b]) + i];
      }
      assert flags[..b + 1] == flags[..b] + [flags[b]];
    }
    assert flags[..|flags|] == flags;
    forall f: Flag
      ensures f in flags
    {
      match f {
        case AutoProfile => assert flags[0] == f;
        case Rgsb => assert flags[1] == f;
        case SyncBypass => assert flags[2] == f;
        case ScartV3 => assert flags[3] == f;
        case VgaV3 => assert flags[4] == f;
      }
    }
    out := out + [TX_RGB_TO_YPBPR, TX_YPBPR_TO_RGB];
  }

  // ----- What has been read -----

  predicate SlotRead(view: View, n: nat, inputs: nat, k: nat) {
    Get(view, IrAddressAddr(n, k, inputs)) >= 0 && Get(view, IrCommandAddr(n, k, inputs)) >= 0
  }

  // Input n's list was read from slot k up to its first empty slot
  predicate ListRead(view: View, n: nat, inputs: nat, k: nat)
    decreases IrSlots(inputs) - k
  {
    k < IrSlots(inputs) ==>
      && SlotRead(view, n, inputs, k)
      && (Get(view, IrAddressAddr(n, k, inputs)) != IR_EMPTY ==> ListRead(view, n, inputs, k + 1))
  }

  // The slots never read do not matter: the view decodes to the codes the whole device holds.
  lemma {:induction false} ReadDecodes(view: View, dev: Device, n: nat, inputs: nat, k: nat)
    requires Agrees(view, dev) && ListRead(view, n, inputs, k)
    ensures DecodeIr(view, n, inputs, k) == DecodeIr(dev, n, inputs, k)
    decreases IrSlots(inputs) - k
  {
    if k < IrSlots(inputs) {
      assert Get(view, IrAddressAddr(n, k, inputs)) == Get(dev, IrAddressAddr(n, k, inputs));
      assert Get(view, IrCommandAddr(n, k, inputs)) == Get(dev, IrCommandAddr(n, k, inputs));
      if Get(view, IrAddressAddr(n, k, inputs)) != IR_EMPTY {
        ReadDecodes(view, dev, n, inputs, k + 1);
      }
    }
  }

  // The view has the bitmaps and the transcoder bytes
  predicate BitmapsRead(view: View, inputs: nat) {
    forall a :: 0 <= a < EEPROM_SIZE && IsBitmapAddress(a, inputs) ==> view[a] >= 0
  }

  // Input n's settings, as stored with the read, are what the device holds
  predicate SettingsMatch(settings: seq<InputSettings>, view: View, inputs: nat, n: nat)
    requires 1 <= n <= |settings|
  {
    Decode(view, n, inputs, settings[n - 1]) == settings[n - 1]
  }

  // What a finished read promises: all it has is true of the device, it has every bitmap and every
  // list up to its end, and the hardware and settings stored with it are those of the whole device.
  predicate Complete(s: Snapshot, dev: Device) {
    && Agrees(s.view, dev)
    && BitmapsRead(s.view, s.inputs)
    && s.hardware == DecodeHardware(dev, s.inputs)
    && |s.settings| == s.inputs
    && (forall n :: 1 <= n <= s.inputs ==>
                      ListRead(s.view, n, s.inputs, 0) && SettingsMatch(s.settings, dev, s.inputs, n))
  }

  lemma FlagSame(view: View, dev: Device, f: Flag, n: nat, inputs: nat)
    requires Agrees(view, dev) && BitmapsRead(view, inputs) && 1 <= n <= inputs <= MAX_INPUTS
    ensures FlagOf(view, f, n) == FlagOf(dev, f, n)
  {
  }

  lemma DecodeSame(view: View, dev: Device, n: nat, inputs: nat, s: InputSettings)
    requires Agrees(view, dev) && BitmapsRead(view, inputs) && ListRead(view, n, inputs, 0)
    requires 1 <= n <= inputs <= MAX_INPUTS
    ensures Decode(view, n, inputs, s) == Decode(dev, n, inputs, s)
  {
    ReadDecodes(view, dev, n, inputs, 0);
    FlagSame(view, dev, AutoProfile, n, inputs);
    FlagSame(view, dev, Rgsb, n, inputs);
    FlagSame(view, dev, SyncBypass, n, inputs);
  }

  lemma HardwareSame(view: View, dev: Device, inputs: nat)
    requires Agrees(view, dev) && BitmapsRead(view, inputs) && inputs <= MAX_INPUTS
    ensures DecodeHardware(view, inputs) == DecodeHardware(dev, inputs)
  {
  }

  // Slot k is the next of input n's to be read: none before it is empty.
  lemma {:induction false} SlotsLeft(dev: Device, n: nat, inputs: nat, k: nat)
    requires k + SlotsAsked(dev, n, inputs, k) == SlotsAsked(dev, n, inputs, 0)
    requires k < IrSlots(inputs)
    ensures k < SlotsAsked(dev, n, inputs, 0)
    ensures Get(dev, IrAddressAddr(n, k, inputs)) == IR_EMPTY ==> SlotsAsked(dev, n, inputs, 0) == k + 1
    ensures Get(dev, IrAddressAddr(n, k, inputs)) != IR_EMPTY ==>
              k + 1 + SlotsAsked(dev, n, inputs, k + 1) == SlotsAsked(dev, n, inputs, 0)
  {
  }

  lemma {:induction false} SlotsRead(dev: Device, n: nat, inputs: nat, k: nat)
    requires 1 <= n <= inputs && k + SlotsAsked(dev, n, inputs, k) == SlotsAsked(dev, n, inputs, 0)
    ensures ListRead(ReadView(dev, inputs), n, inputs, k)
    decreases IrSlots(inputs) - k
  {
    hide Locate;
    hide IrAddressAddr;
    if k < IrSlots(inputs) {
      SlotsLeft(dev, n, inputs, k);
      SlotsFit(n, k, inputs);
      LocateSlot(n, k, inputs, IrAddressAddr(n, k, inputs));
      LocateSlot(n, k, inputs, IrCommandAddr(n, k, inputs));
      if Get(dev, IrAddressAddr(n, k, inputs)) != IR_EMPTY {
        SlotsRead(dev, n, inputs, k + 1);
      }
    }
  }

  // What a read leaves behind is complete, although it has only part of the bytes.
  lemma SnapshotComplete(dev: Device, transcoders: nat -> Transcoders, inputs: nat)
    requires inputs <= MAX_INPUTS
    ensures Complete(SnapshotOf(dev, transcoders, inputs), dev)
  {
    hide ListRead;
    hide DecodeIr;
    hide SlotsAsked;
    hide IsBitmapAddress;
    var s := SnapshotOf(dev, transcoders, inputs);
    forall n | 1 <= n <= inputs
      ensures ListRead(s.view, n, inputs, 0) && SettingsMatch(s.settings, dev, inputs, n)
    {
      SlotsRead(dev, n, inputs, 0);
      DecodeTwice(dev, n, inputs, TxSettings(s.hardware, transcoders(n)));
    }
  }

  lemma DecodeTwice(view: View, n: nat, inputs: nat, s: InputSettings)
    requires 1 <= n
    ensures Decode(view, n, inputs, Decode(view, n, inputs, s)) == Decode(view, n, inputs, s)
  {
  }

  // A complete read never makes the planner ask for another one: the plan is refused only for the
  // number of inputs or for a list that does not fit.
  lemma CompletePlans(s: Snapshot, dev: Device, want: seq<InputSettings>)
    requires Complete(s, dev)
    ensures Plannable(s.view, want, s.inputs) <==>
            && |want| == s.inputs
            && 1 <= s.inputs <= MAX_INPUTS
            && (forall i :: 0 <= i < |want| ==> |want[i].ir| <= IrSlots(s.inputs))
  {
    if |want| == s.inputs && 1 <= s.inputs <= MAX_INPUTS {
      forall n | 1 <= n <= s.inputs
        ensures FlagsRead(s.view, n)
      {
        assert IsBitmapAddress(FlagAddr(AutoProfile, n), s.inputs);
        assert IsBitmapAddress(FlagAddr(Rgsb, n), s.inputs);
        assert IsBitmapAddress(FlagAddr(SyncBypass, n), s.inputs);
      }
      if Plannable(s.view, want, s.inputs) {
        forall i | 0 <= i < |want|
          ensures |want[i].ir| <= IrSlots(s.inputs)
        {
          assert InputPlannable(s.view, want, s.inputs, i + 1);
        }
      }
    }
  }

  // ----- The read task -----

  datatype ReadOutcome = NoAnswer | Read(snapshot: Snapshot)

  lemma NothingAsked(dev: Device, inputs: nat, view: View, addrs: seq<nat>)
    requires forall a :: a in addrs <==> IsBitmapAddress(a, inputs)
    requires forall a :: 0 <= a < EEPROM_SIZE ==> view[a] == if a in addrs then dev[a] else UNREAD
    ensures view == ReadPart(dev, inputs, 1, 0)
  {
    hide IsBitmapAddress;
    forall a: nat | a < EEPROM_SIZE
      ensures Asked(dev, inputs, 1, 0, a) <==> IsBitmapAddress(a, inputs)
    {
      NoInputZero(inputs, a);
    }
  }

  lemma NoInputZero(inputs: nat, a: nat)
    ensures match Locate(a, inputs) case IrAddress(n, k) => n > 0 case IrCommand(n, k) => n > 0 case _ => true
  {
  }

  // Asks for every bitmap byte and for the bytes that say which transcoders there are
  method ReadBitmaps(svs: Svs, e: Eeprom, inputs: nat) returns (ok: bool)
    requires inputs <= MAX_INPUTS && e.bytes == seq(EEPROM_SIZE, i => UNREAD)
    modifies e, svs`asked
    ensures ok <==> AllWork(svs.answers, old(svs.asked), BitmapAsks(inputs))
    ensures ok ==> svs.asked == old(svs.asked) + BitmapAsks(inputs) && e.bytes == ReadPart(svs.eeprom, inputs, 1, 0)
  {
    var addrs := BitmapAddresses(inputs);
    for i := 0 to |addrs|
      invariant svs.asked == old(svs.asked) + i && AllWork(svs.answers, old(svs.asked), i)
      invariant forall a :: 0 <= a < EEPROM_SIZE ==> e.bytes[a] == if a in addrs[..i] then svs.eeprom[a] else UNREAD
    {
      assert addrs[i] in addrs;
      assert addrs[..i + 1] == addrs[..i] + [addrs[i]];
      var v := svs.Ask(addrs[i]);
      if v < 0 {
        return false;
      }
      e.Set(addrs[i], v);
    }
    assert addrs[..|addrs|] == addrs;
    NothingAsked(svs.eeprom, inputs, e.bytes, addrs);
    return true;
  }

  // Which of the transcoders fitted are on for one input
  method ReadInputTranscoders(svs: Svs, hw: Hardware, n: nat) returns (ok: bool, s: InputSettings)
    modifies svs`asked
    ensures ok <==> AllWork(svs.answers, old(svs.asked), Fitted(hw))
    ensures ok ==> svs.asked == old(svs.asked) + Fitted(hw) && s == TxSettings(hw, svs.transcoders(n))
  {
    s := DEFAULT_SETTINGS;
    if hw.txRgbToYpbpr {
      var answered, on := svs.AskTranscoder(n, true);
      if !answered {
        return false, s;
      }
      s := s.(rgbToYpbpr := on);
    }
    if hw.txYpbprToRgb {
      var answered, on := svs.AskTranscoder(n, false);
      if !answered {
        return false, s;
      }
      s := s.(ypbprToRgb := on);
    }
    ok := true;
  }

  method ReadTranscoders(svs: Svs, hw: Hardware, inputs: nat) returns (ok: bool, settings: seq<InputSettings>)
    modifies svs`asked
    ensures ok <==> AllWork(svs.answers, old(svs.asked), inputs * Fitted(hw))
    ensures ok ==> svs.asked == old(svs.asked) + inputs * Fitted(hw)
    ensures ok ==> settings == AllTxSettings(hw, svs.transcoders, inputs)
  {
    settings := [];
    var fitted := Fitted(hw);
    for n := 1 to inputs + 1
      invariant svs.asked == old(svs.asked) + (n - 1) * fitted && AllWork(svs.answers, old(svs.asked), (n - 1) * fitted)
      invariant settings == AllTxSettings(hw, svs.transcoders, n - 1)
    {
      FewerTimes(n, inputs, fitted);
      var s;
      ok, s := ReadInputTranscoders(svs, hw, n);
      if !ok {
        return;
      }
      settings := settings + [s];
    }
    ok := true;
  }

  lemma FewerTimes(n: nat, m: nat, k: nat)
    requires 1 <= n <= m
    ensures (n - 1) * k + k == n * k <= m * k
  {
    assert (m - n) * k >= 0;
  }

  lemma OneSlotMore(dev: Device, n: nat, inputs: nat, k: nat)
    requires 1 <= n <= inputs && k < IrSlots(inputs)
    ensures IrCommandAddr(n, k, inputs) < EEPROM_SIZE
    ensures Put(Put(ReadPart(dev, inputs, n, k), IrAddressAddr(n, k, inputs), dev[IrAddressAddr(n, k, inputs)]),
                IrCommandAddr(n, k, inputs), dev[IrCommandAddr(n, k, inputs)])
            == ReadPart(dev, inputs, n, k + 1)
  {
    hide IsBitmapAddress;
    hide Locate;
    hide IrAddressAddr;
    hide SlotsAsked;
    SlotsFit(n, k, inputs);
    LocateSlot(n, k, inputs, 0);
    var x, y := IrAddressAddr(n, k, inputs), IrCommandAddr(n, k, inputs);
    var put := Put(Put(ReadPart(dev, inputs, n, k), x, dev[x]), y, dev[y]);
    forall a: nat | a < EEPROM_SIZE
      ensures put[a] == ReadPart(dev, inputs, n, k + 1)[a]
    {
      LocateSlot(n, k, inputs, a);
    }
  }

  lemma ListDone(dev: Device, n: nat, inputs: nat)
    ensures ReadPart(dev, inputs, n, SlotsAsked(dev, n, inputs, 0)) == ReadPart(dev, inputs, n + 1, 0)
  {
    hide IsBitmapAddress;
    hide Locate;
    hide SlotsAsked;
    forall a: nat | a < EEPROM_SIZE
      ensures Asked(dev, inputs, n, SlotsAsked(dev, n, inputs, 0), a) <==> Asked(dev, inputs, n + 1, 0, a)
    {
    }
  }

  // One input's codes, up to its first empty slot
  method ReadList(svs: Svs, e: Eeprom, n: nat, inputs: nat) returns (ok: bool)
    requires 1 <= n <= inputs <= MAX_INPUTS && e.bytes == ReadPart(svs.eeprom, inputs, n, 0)
    modifies e, svs`asked
    ensures ok <==> AllWork(svs.answers, old(svs.asked), 2 * SlotsAsked(svs.eeprom, n, inputs, 0))
    ensures ok ==> svs.asked == old(svs.asked) + 2 * SlotsAsked(svs.eeprom, n, inputs, 0)
    ensures ok ==> e.bytes == ReadPart(svs.eeprom, inputs, n + 1, 0)
  {
    hide ReadPart;
    hide SlotsAsked;
    hide IrAddressAddr;
    hide IrSlots;
    var slots := IrSlots(inputs);
    var k := 0;
    NoneLeft(svs.eeprom, n, inputs, slots);
    while k < slots
      invariant 0 <= k <= slots
      invariant svs.asked == old(svs.asked) + 2 * k && AllWork(svs.answers, old(svs.asked), 2 * k)
      invariant e.bytes == ReadPart(svs.eeprom, inputs, n, k)
      invariant k + SlotsAsked(svs.eeprom, n, inputs, k) == SlotsAsked(svs.eeprom, n, inputs, 0)
    {
      SlotsLeft(svs.eeprom, n, inputs, k);
      OneSlotMore(svs.eeprom, n, inputs, k);
      var a := svs.Ask(IrAddressAddr(n, k, inputs));
      if a < 0 {
        return false;
      }
      e.Set(IrAddressAddr(n, k, inputs), a);
      var c := svs.Ask(IrCommandAddr(n, k, inputs));
      if c < 0 {
        return false;
      }
      e.Set(IrCommandAddr(n, k, inputs), c);
      k := k + 1;
      if a == IR_EMPTY {
        break;
      }
    }
    ListDone(svs.eeprom, n, inputs);
    ok := true;
  }

  lemma NoneLeft(dev: Device, n: nat, inputs: nat, slots: nat)
    requires slots == IrSlots(inputs)
    ensures SlotsAsked(dev, n, inputs, slots) == 0
  {
  }

  function DecodedAll(view: View, inputs: nat, before: seq<InputSettings>): seq<InputSettings>
    requires |before| == inputs
  {
    seq(inputs, i requires 0 <= i < inputs => Decode(view, i + 1, inputs, before[i]))
  }

  method DecodeAll(e: Eeprom, inputs: nat, before: seq<InputSettings>) returns (settings: seq<InputSettings>)
    requires |before| == inputs
    ensures settings == DecodedAll(e.bytes, inputs, before)
  {
    settings := [];
    for n := 1 to inputs + 1
      invariant settings == DecodedAll(e.bytes, inputs, before)[..n - 1]
    {
      var s := DecodeInput(e, n, inputs, before[n - 1]);
      settings := settings + [s];
    }
  }

  // Every input's codes
  method ReadLists(svs: Svs, e: Eeprom, inputs: nat) returns (ok: bool)
    requires inputs <= MAX_INPUTS && e.bytes == ReadPart(svs.eeprom, inputs, 1, 0)
    modifies e, svs`asked
    ensures ok <==> AllWork(svs.answers, old(svs.asked), ListAsks(svs.eeprom, inputs, inputs))
    ensures ok ==> svs.asked == old(svs.asked) + ListAsks(svs.eeprom, inputs, inputs)
    ensures ok ==> e.bytes == ReadView(svs.eeprom, inputs)
  {
    hide AllWork;
    hide ReadPart;
    hide SlotsAsked;
    NoneAsked(svs.answers, old(svs.asked), svs.eeprom, inputs);
    for n := 1 to inputs + 1
      invariant e.bytes == ReadPart(svs.eeprom, inputs, n, 0)
      invariant svs.asked == old(svs.asked) + ListAsks(svs.eeprom, inputs, n - 1)
      invariant AllWork(svs.answers, old(svs.asked), ListAsks(svs.eeprom, inputs, n - 1))
    {
      ghost var before, more := ListAsks(svs.eeprom, inputs, n - 1), 2 * SlotsAsked(svs.eeprom, n, inputs, 0);
      ListAsksGrow(svs.eeprom, inputs, n, inputs);
      AllWorkSum(svs.answers, old(svs.asked), before, more);
      AllWorkSum(svs.answers, old(svs.asked), before + more, ListAsks(svs.eeprom, inputs, inputs) - before - more);
      ok := ReadList(svs, e, n, inputs);
      if !ok {
        return;
      }
    }
    ok := true;
  }

  lemma NoneAsked(answers: nat -> bool, from: nat, dev: Device, inputs: nat)
    ensures ListAsks(dev, inputs, 0) == 0 && AllWork(answers, from, 0)
  {
  }

  // Reads the bitmaps, the transcoders and each input's codes up to its first empty slot. It succeeds if and
  // only if every question is answered, and then it leaves behind a complete read of the device.
  method ReadTask(svs: Svs, inputs: nat) returns (r: ReadOutcome)
    requires 1 <= inputs <= MAX_INPUTS
    modifies svs`asked
    ensures r.Read? <==> AllWork(svs.answers, old(svs.asked), ReadAsks(svs.eeprom, inputs))
    ensures r.Read? ==> svs.asked == old(svs.asked) + ReadAsks(svs.eeprom, inputs)
    ensures r.Read? ==> r.snapshot == SnapshotOf(svs.eeprom, svs.transcoders, inputs)
    ensures r.Read? ==> Complete(r.snapshot, svs.eeprom)
  {
    hide Decode;
    hide SlotsAsked;
    hide ReadPart;
    hide DecodeHardware;
    hide Complete;
    hide AllWork;
    hide Agrees;
    hide BitmapsRead;
    hide Fitted;
    ghost var first, lists := old(svs.asked), ListAsks(svs.eeprom, inputs, inputs);
    ghost var txs := inputs * Fitted(DecodeHardware(svs.eeprom, inputs));
    AllWorkSum(svs.answers, first, BitmapAsks(inputs) + txs, lists);
    AllWorkSum(svs.answers, first, BitmapAsks(inputs), txs);
    var e := new Eeprom();
    var ok := ReadBitmaps(svs, e, inputs);
    if !ok {
      return NoAnswer;
    }
    PartAgrees(svs.eeprom, inputs, 1);
    HardwareSame(e.bytes, svs.eeprom, inputs);
    var hardware := DecodeHardware(e.bytes, inputs);
    var settings;
    ok, settings := ReadTranscoders(svs, hardware, inputs);
    if !ok {
      return NoAnswer;
    }
    ok := ReadLists(svs, e, inputs);
    if !ok {
      return NoAnswer;
    }
    SnapshotComplete(svs.eeprom, svs.transcoders, inputs);
    settings := DecodeAll(e, inputs, settings);
    SettingsOfWhole(svs.eeprom, svs.transcoders, inputs, hardware);
    return Read(Snapshot(e.bytes, inputs, hardware, settings));
  }

  lemma {:induction false} ListAsksGrow(dev: Device, inputs: nat, n: nat, m: nat)
    requires 1 <= n <= m
    ensures ListAsks(dev, inputs, n) == ListAsks(dev, inputs, n - 1) + 2 * SlotsAsked(dev, n, inputs, 0)
    ensures ListAsks(dev, inputs, n) <= ListAsks(dev, inputs, m)
  {
    hide SlotsAsked;
    if n < m {
      ListAsksGrow(dev, inputs, n, m - 1);
    }
  }

  lemma PartAgrees(dev: Device, inputs: nat, m: nat)
    ensures Agrees(ReadPart(dev, inputs, m, 0), dev) && BitmapsRead(ReadPart(dev, inputs, m, 0), inputs)
  {
    hide IsBitmapAddress;
    hide SlotsAsked;
    hide Locate;
  }

  lemma SettingsOfWhole(dev: Device, transcoders: nat -> Transcoders, inputs: nat, hw: Hardware)
    requires inputs <= MAX_INPUTS && hw == DecodeHardware(dev, inputs)
    ensures var before := AllTxSettings(hw, transcoders, inputs);
            DecodedAll(ReadView(dev, inputs), inputs, before)
            == SnapshotOf(dev, transcoders, inputs).settings
  {
    hide Decode;
    hide ReadPart;
    hide DecodeHardware;
    hide ListRead;
    SnapshotComplete(dev, transcoders, inputs);
    forall n | 1 <= n <= inputs
      ensures Decode(ReadView(dev, inputs), n, inputs, TxSettings(hw, transcoders(n)))
              == Decode(dev, n, inputs, TxSettings(hw, transcoders(n)))
    {
      DecodeSame(ReadView(dev, inputs), dev, n, inputs, TxSettings(hw, transcoders(n)));
    }
  }

  // ----- Writing -----

  // Every byte is what it was, or what the plan gives it
  predicate PartWritten(dev: Device, before: Device, view: View, planned: View) {
    forall a :: 0 <= a < EEPROM_SIZE ==> dev[a] == before[a] || (IsChange(view, planned, a) && dev[a] == planned[a])
  }

  // The device once it has been told the first m bytes of a list and kept those it keeps
  function Taken(dev: Device, writes: seq<(int, byte)>, keeps: nat -> bool, from: nat, m: nat): Device
    requires m <= |writes|
  {
    if m == 0 then dev
    else
      var before, (a, v) := Taken(dev, writes, keeps, from, m - 1), writes[m - 1];
      if keeps(from + m - 1) && 0 <= a < EEPROM_SIZE then before[a := v] else before
  }

  // The list is in ascending order of addresses that exist
  predicate Ascending(writes: seq<(int, byte)>) {
    && (forall i :: 0 <= i < |writes| ==> 0 <= writes[i].0 < EEPROM_SIZE)
    && (forall i, j :: 0 <= i < j < |writes| ==> writes[i].0 < writes[j].0)
  }

  // The bytes the plan lists, in order; it stops at the first command that is not sent
  method SendWrites(svs: Svs, writes: seq<(int, byte)>) returns (ok: bool)
    requires Ascending(writes)
    modifies svs`eeprom, svs`told
    ensures ok <==> AllWork(svs.carries, old(svs.told), |writes|)
    ensures ok ==> svs.told == old(svs.told) + |writes|
    ensures var m := if ok then |writes| else svs.told - old(svs.told) - 1;
            && 0 <= m <= |writes| && AllWork(svs.carries, old(svs.told), m)
            && (!ok ==> m < |writes| && !svs.carries(old(svs.told) + m))
            && svs.eeprom == Taken(old(svs.eeprom), writes, svs.keeps, old(svs.told), m)
  {
    for i := 0 to |writes|
      invariant svs.told == old(svs.told) + i && AllWork(svs.carries, old(svs.told), i)
      invariant svs.eeprom == Taken(old(svs.eeprom), writes, svs.keeps, old(svs.told), i)
    {
      var sent := svs.Tell(writes[i].0, writes[i].1);
      if !sent {
        return false;
      }
    }
    ok := true;
  }

  // The device told all of a list holds entry i if it kept it, or held that byte before; and nothing that is
  // not in the list changes.
  lemma {:induction false} TakenAt(dev: Device, writes: seq<(int, byte)>, keeps: nat -> bool, from: nat, m: nat, a: nat)
    requires Ascending(writes) && m <= |writes| && a < EEPROM_SIZE
    ensures var b := Taken(dev, writes, keeps, from, m)[a];
            && (forall i :: 0 <= i < m && writes[i].0 == a ==> b == if keeps(from + i) then writes[i].1 else dev[a])
            && ((forall i :: 0 <= i < m ==> writes[i].0 != a) ==> b == dev[a])
  {
    if m > 0 {
      TakenAt(dev, writes, keeps, from, m - 1, a);
    }
  }

  // However many commands were sent and kept, each byte is the old one or the planned one.
  lemma TakenIsPart(dev: Device, view: View, planned: View, keeps: nat -> bool, from: nat, m: nat)
    requires m <= |Diff(view, planned, |view|)|
    ensures PartWritten(Taken(dev, Diff(view, planned, |view|), keeps, from, m), dev, view, planned)
  {
    hide Diff;
    var w := Diff(view, planned, |view|);
    DiffExact(view, planned, |view|);
    forall a: nat | a < EEPROM_SIZE
      ensures var b := Taken(dev, w, keeps, from, m)[a]; b == dev[a] || (IsChange(view, planned, a) && b == planned[a])
    {
      TakenAt(dev, w, keeps, from, m, a);
      if i :| 0 <= i < m && w[i].0 == a {
        assert IsChange(view, planned, w[i].0) && w[i].1 == planned[w[i].0];
      }
    }
  }

  datatype Check = Matches | Silent | Differs(addr: int)

  // Question number from + i is answered, with the byte written
  predicate ReadsBack(dev: Device, writes: seq<(int, byte)>, answers: nat -> bool, from: nat, i: nat)
    requires i < |writes|
  {
    0 <= writes[i].0 < EEPROM_SIZE && answers(from + i) && dev[writes[i].0] == writes[i].1
  }

  predicate ReadBackTo(dev: Device, writes: seq<(int, byte)>, answers: nat -> bool, from: nat, m: nat)
    requires m <= |writes|
  {
    forall i :: 0 <= i < m ==> ReadsBack(dev, writes, answers, from, i)
  }

  // The verdict of a read-back that stops after question m - 1
  predicate StopsAt(dev: Device, writes: seq<(int, byte)>, answers: nat -> bool, from: nat, m: int, check: Check) {
    && 0 < m <= |writes| && ReadBackTo(dev, writes, answers, from, m - 1)
    && !ReadsBack(dev, writes, answers, from, m - 1)
    && check == if answers(from + m - 1) then Differs(writes[m - 1].0) else Silent
  }

  // Each written byte read back, up to the first question without the right answer. A match means the
  // switch holds them all, even if it ignored some of the commands.
  method ReadBack(svs: Svs, e: Eeprom, writes: seq<(int, byte)>) returns (check: Check)
    requires Ascending(writes)
    modifies e, svs`asked
    ensures check.Matches? <==> ReadBackTo(svs.eeprom, writes, svs.answers, old(svs.asked), |writes|)
    ensures check.Matches? ==> e.bytes == Refresh(old(e.bytes), writes) && svs.asked == old(svs.asked) + |writes|
    ensures !check.Matches? ==>
              StopsAt(svs.eeprom, writes, svs.answers, old(svs.asked), svs.asked - old(svs.asked), check)
  {
    for i := 0 to |writes|
      invariant svs.asked == old(svs.asked) + i
      invariant e.bytes == Refresh(old(e.bytes), writes[..i])
      invariant ReadBackTo(svs.eeprom, writes, svs.answers, old(svs.asked), i)
    {
      var v := svs.Ask(writes[i].0);
      if v < 0 {
        assert !ReadsBack(svs.eeprom, writes, svs.answers, old(svs.asked), i);
        return Silent;
      }
      if v != writes[i].1 {
        assert !ReadsBack(svs.eeprom, writes, svs.answers, old(svs.asked), i);
        return Differs(writes[i].0);
      }
      e.Set(writes[i].0, writes[i].1);
      assert writes[..i + 1][..i] == writes[..i];
    }
    assert writes[..|writes|] == writes;
    return Matches;
  }

  // A device that holds some of the plan, and every byte of its list, has taken the whole list.
  lemma AllKept(dev: Device, before: Device, view: View, planned: View)
    requires PartWritten(dev, before, view, planned)
    requires var w := Diff(view, planned, |view|);
             forall i :: 0 <= i < |w| ==> 0 <= w[i].0 < EEPROM_SIZE && dev[w[i].0] == w[i].1
    ensures dev == Apply(before, Diff(view, planned, |view|))
  {
    DiffExact(view, planned, |view|);
    forall a | 0 <= a < EEPROM_SIZE
      ensures dev[a] == Apply(before, Diff(view, planned, |view|))[a]
    {
      ApplyDiff(before, view, planned, |view|, a);
      if IsChange(view, planned, a) {
        assert (a, planned[a] as byte) in Diff(view, planned, |view|);
      }
    }
  }

  // Saving the same settings again, from the same read, completes a save that failed half way.
  lemma {:induction false} RetryCompletes(dev: Device, before: Device, read: View, want: seq<InputSettings>)
    requires PartWritten(dev, before, read, Planned(read, want))
    ensures Apply(dev, Writes(read, want)) == Apply(before, Writes(read, want))
  {
    hide PlanUpTo;
    var p := Planned(read, want);
    forall a | 0 <= a < EEPROM_SIZE
      ensures Apply(dev, Writes(read, want))[a] == Apply(before, Writes(read, want))[a]
    {
      ApplyDiff(dev, read, p, |read|, a);
      ApplyDiff(before, read, p, |read|, a);
    }
  }

  lemma {:induction false} HeldIsRead(view: View, n: nat, inputs: nat, codes: seq<IrCode>, k: nat)
    requires HoldsList(view, n, inputs, codes) && k <= |codes| <= IrSlots(inputs)
    ensures ListRead(view, n, inputs, k)
    decreases |codes| - k
  {
    if k < IrSlots(inputs) {
      assert HoldsSlot(view, n, inputs, codes, k);
      if k < |codes| {
        HeldIsRead(view, n, inputs, codes, k + 1);
      }
    }
  }

  // The refreshed view after a save is again a complete read of the device.
  lemma StaysComplete(s: Snapshot, dev: Device, want: seq<InputSettings>)
    requires Complete(s, dev) && Plannable(s.view, want, s.inputs)
    ensures var view, after := Refresh(s.view, Writes(s.view, want)), Apply(dev, Writes(s.view, want));
            && Agrees(view, after) && BitmapsRead(view, s.inputs)
            && DecodeHardware(after, s.inputs) == s.hardware
            && (forall n :: 1 <= n <= s.inputs ==> ListRead(view, n, s.inputs, 0))
  {
    var view, after := Refresh(s.view, Writes(s.view, want)), Apply(dev, Writes(s.view, want));
    RefreshIsPlanned(s.view, want);
    forall a | 0 <= a < EEPROM_SIZE
      ensures view[a] >= 0 ==> view[a] == after[a]
      ensures s.view[a] >= 0 ==> view[a] >= 0
      ensures Locate(a, s.inputs).Other? ==> after[a] == dev[a]
    {
      WrittenAt(dev, s.view, want, a);
      WriteFrame(dev, s.view, want, a);
    }
    forall n | 1 <= n <= s.inputs
      ensures ListRead(view, n, s.inputs, 0)
    {
      assert InputPlannable(s.view, want, s.inputs, n);
      PlannedList(s.view, want, n);
      HeldIsRead(view, n, s.inputs, want[n - 1].ir, 0);
    }
    HardwareKept(dev, after, s.inputs);
  }

  // The bytes that say what hardware is fitted are none of the planner's.
  lemma HardwareKept(dev: Device, after: Device, inputs: nat)
    requires inputs <= MAX_INPUTS
    requires forall a :: 0 <= a < EEPROM_SIZE && Locate(a, inputs).Other? ==> after[a] == dev[a]
    ensures DecodeHardware(after, inputs) == DecodeHardware(dev, inputs)
  {
    assert Locate(TX_RGB_TO_YPBPR, inputs).Other? && Locate(TX_YPBPR_TO_RGB, inputs).Other?;
    assert FlagBits(after, ScartV3, inputs) == FlagBits(dev, ScartV3, inputs) by {
      forall i | 0 <= i < inputs
        ensures FlagBits(after, ScartV3, inputs)[i] == FlagBits(dev, ScartV3, inputs)[i]
      {
        assert Locate(FlagAddr(ScartV3, i + 1), inputs).Other?;
      }
    }
    assert FlagBits(after, VgaV3, inputs) == FlagBits(dev, VgaV3, inputs) by {
      forall i | 0 <= i < inputs
        ensures FlagBits(after, VgaV3, inputs)[i] == FlagBits(dev, VgaV3, inputs)[i]
      {
        assert Locate(FlagAddr(VgaV3, i + 1), inputs).Other?;
      }
    }
  }

  // How a save ends. The last two have written the EEPROM; NotSet has not set every transcoder.
  datatype WriteOutcome =
    | Refused(error: PlanError) | NotSent | NotRead | Kept(addr: int)
    | NotSet(snapshot: Snapshot, failure: TxFailure) | Saved(snapshot: Snapshot, unconfirmed: seq<nat>)

  predicate Written(outcome: WriteOutcome) { outcome.Saved? || outcome.NotSet? }

  // Whether the switch holds listed byte i after the save: it keeps the command, or held the byte before
  predicate HoldsAfter(dev: Device, writes: seq<(int, byte)>, keeps: nat -> bool, from: nat, i: nat)
    requires i < |writes|
  {
    keeps(from + i) || (0 <= writes[i].0 < EEPROM_SIZE && dev[writes[i].0] == writes[i].1)
  }

  predicate WillHold(dev: Device, writes: seq<(int, byte)>, keeps: nat -> bool, from: nat) {
    forall i :: 0 <= i < |writes| ==> HoldsAfter(dev, writes, keeps, from, i)
  }

  lemma HeldIsTaken(dev: Device, writes: seq<(int, byte)>, keeps: nat -> bool, from: nat,
                    answers: nat -> bool, asked: nat)
    requires Ascending(writes)
    ensures ReadBackTo(Taken(dev, writes, keeps, from, |writes|), writes, answers, asked, |writes|)
            <==> WillHold(dev, writes, keeps, from) && AllWork(answers, asked, |writes|)
  {
    hide Taken;
    hide Ascending;
    var after := Taken(dev, writes, keeps, from, |writes|);
    forall i | 0 <= i < |writes|
      ensures ReadsBack(after, writes, answers, asked, i)
              <==> answers(asked + i) && HoldsAfter(dev, writes, keeps, from, i)
    {
      TakenAt(dev, writes, keeps, from, |writes|, InRange(writes, i));
    }
    if ReadBackTo(after, writes, answers, asked, |writes|) {
      forall j | asked <= j < asked + |writes|
        ensures answers(j)
      {
        assert ReadsBack(after, writes, answers, asked, j - asked);
      }
    }
  }

  function InRange(writes: seq<(int, byte)>, i: nat): (a: nat)
    requires Ascending(writes) && i < |writes|
    ensures a < EEPROM_SIZE && a == writes[i].0
  {
    writes[i].0
  }

  // The read a save leaves behind: the refreshed view, and the settings with the first m transcoders set
  function SavedSnapshot(r: Snapshot, view: View, cs: seq<TxChange>, m: nat): Snapshot
    requires |r.settings| == r.inputs && m <= |cs|
    requires forall i :: 0 <= i < |cs| ==> 1 <= cs[i].input <= r.inputs
  {
    Snapshot(view, r.inputs, r.hardware, DecodedAll(view, r.inputs, Recorded(r.settings, cs, m)))
  }

  // How the transcoder steps end, from command `told` and question `asked` on, when they stop at change m
  predicate TxEnds(line: Line, told: nat, asked: nat, shown: nat, tx: nat -> Transcoders, cs: seq<TxChange>, m: nat,
                   r: Snapshot, view: View, outcome: WriteOutcome)
    requires |r.settings| == r.inputs
    requires forall i :: 0 <= i < |cs| ==> 1 <= cs[i].input <= r.inputs
  {
    && m <= |cs| && StepsWork(line, told, shown, cs, m) && (m < |cs| ==> !StepWorks(line, told, shown, cs, m))
    && outcome == match FailureAt(line, told, shown, cs, m)
                  case Some(failure) => NotSet(SavedSnapshot(r, view, cs, m), failure)
                  case None => Saved(SavedSnapshot(r, view, cs, m), Unconfirmed(line, told, asked, tx, cs, m))
  }

  lemma ChangesInRange(r: Snapshot, want: seq<InputSettings>)
    requires |r.settings| == |want| == r.inputs
    ensures var cs := Changes(want, r.settings, r.inputs); forall i :: 0 <= i < |cs| ==> 1 <= cs[i].input <= r.inputs
  {
    ChangesExact(want, r.settings, r.inputs);
    var cs := Changes(want, r.settings, r.inputs);
    assert forall i :: 0 <= i < |cs| ==> IsTxChange(cs[i], want, r.settings, r.inputs);
  }

  // What a save changes besides the EEPROM: the transcoders, and what the bridge remembers
  method FinishSave(svs: Svs, e: Eeprom, r: Snapshot, want: seq<InputSettings>)
    returns (outcome: WriteOutcome, ghost made: nat)
    requires |r.settings| == |want| == r.inputs
    requires var cs := Changes(want, r.settings, r.inputs); forall i :: 0 <= i < |cs| ==> 1 <= cs[i].input <= r.inputs
    modifies svs`transcoders, svs`shown, svs`told, svs`asked
    ensures var cs := Changes(want, r.settings, r.inputs);
            && TxEnds(LineOf(svs), old(svs.told), old(svs.asked), old(svs.shown), old(svs.transcoders), cs, made, r,
                      e.bytes, outcome)
            && svs.transcoders == TxAfter(LineOf(svs), old(svs.told), old(svs.transcoders), cs, made)
  {
    hide Changes;
    hide Recorded;
    hide DecodedAll;
    hide StepsWork;
    hide StepWorks;
    hide Unconfirmed;
    hide TxAfter;
    hide FailureAt;
    var cs := TxChanges(want, r.settings);
    var failed, unconfirmed, settings, m := SetTranscoders(svs, cs, r.settings);
    settings := DecodeAll(e, r.inputs, settings);
    made := m;
    var snapshot := Snapshot(e.bytes, r.inputs, r.hardware, settings);
    outcome := match failed case Some(failure) => NotSet(snapshot, failure) case None => Saved(snapshot, unconfirmed);
  }

  // Plans, sends, reads back and sets the transcoders, from any read, even one the device has changed since. The
  // EEPROM is written if and only if there is a plan, every command is sent, the switch holds every byte of it and
  // says so. However it ends, every byte is the old one or the planned one, and a save that has written the EEPROM has
  // written the whole plan and leaves the refreshed view behind: from a complete read, a complete read. Then each
  // transcoder that is wanted otherwise is set in turn, up to the first that cannot be.
  method WriteTask(svs: Svs, r: Snapshot, want: seq<InputSettings>) returns (outcome: WriteOutcome, ghost made: nat)
    requires |r.settings| == r.inputs
    modifies svs`eeprom, svs`told, svs`asked, svs`shown, svs`transcoders
    ensures outcome.Refused? <==> !Plannable(r.view, want, r.inputs)
    ensures outcome.Refused? ==> svs.eeprom == old(svs.eeprom)
    ensures !outcome.Refused? ==> PartWritten(svs.eeprom, old(svs.eeprom), r.view, Planned(r.view, want))
    ensures !outcome.Refused? ==> var w := Writes(r.view, want);
              && (outcome.NotSent? <==> !AllWork(svs.carries, old(svs.told), |w|))
              && (!outcome.NotSent? ==> svs.eeprom == Taken(old(svs.eeprom), w, svs.keeps, old(svs.told), |w|))
              && (Written(outcome) <==>
                    && AllWork(svs.carries, old(svs.told), |w|)
                    && WillHold(old(svs.eeprom), w, svs.keeps, old(svs.told))
                    && AllWork(svs.answers, old(svs.asked), |w|))
              && (outcome.NotRead? || outcome.Kept? ==>
                    && svs.told == old(svs.told) + |w|
                    && StopsAt(Taken(old(svs.eeprom), w, svs.keeps, old(svs.told), |w|), w, svs.answers,
                               old(svs.asked), svs.asked - old(svs.asked),
                               if outcome.Kept? then Differs(outcome.addr) else Silent))
    ensures Written(outcome) ==> svs.eeprom == Apply(old(svs.eeprom), Writes(r.view, want))
    ensures Written(outcome) ==> |want| == r.inputs
    ensures Written(outcome) ==>
              var w, cs := Writes(r.view, want), Changes(want, r.settings, r.inputs);
              && (forall i :: 0 <= i < |cs| ==> 1 <= cs[i].input <= r.inputs)
              && TxEnds(LineOf(svs), old(svs.told) + |w|, old(svs.asked) + |w|, old(svs.shown), old(svs.transcoders),
                        cs, made, r, Refresh(r.view, w), outcome)
              && svs.transcoders == TxAfter(LineOf(svs), old(svs.told) + |w|, old(svs.transcoders), cs, made)
    ensures !Written(outcome) ==> svs.transcoders == old(svs.transcoders) && svs.shown == old(svs.shown)
    ensures Written(outcome) && Complete(r, old(svs.eeprom)) ==> Complete(outcome.snapshot, svs.eeprom)
  {
    hide PlanUpTo;
    hide DecodeIr;
    hide Diff;
    hide Decode;
    hide Complete;
    hide Taken;
    hide PartWritten;
    hide ReadBackTo;
    hide WillHold;
    hide Plannable;
    hide TxEnds;
    hide Changes;
    hide TxAfter;
    made := 0;
    var e := new Eeprom();
    e.bytes := r.view;
    var error, writes := PlanWrites(e, want, r.inputs);
    if !error.NoError? {
      return Refused(error), made;
    }
    WritesAscend(r.view, want);
    var ok := SendWrites(svs, writes);
    ghost var m := if ok then |writes| else svs.told - old(svs.told) - 1;
    TakenIsPart(old(svs.eeprom), r.view, Planned(r.view, want), svs.keeps, old(svs.told), m);
    if !ok {
      return NotSent, made;
    }
    HeldIsTaken(old(svs.eeprom), writes, svs.keeps, old(svs.told), svs.answers, old(svs.asked));
    var check := ReadBack(svs, e, writes);
    match check {
      case Silent => return WriteOutcome.NotRead, made;
      case Differs(addr) => return Kept(addr), made;
      case Matches =>
    }
    WroteAll(svs.eeprom, old(svs.eeprom), r.view, want, svs.answers, old(svs.asked));
    PlannedSized(r.view, want, r.inputs);
    ChangesInRange(r, want);
    outcome, made := FinishSave(svs, e, r, want);
    ghost var cs := Changes(want, r.settings, r.inputs);
    EndsWritten(LineOf(svs), old(svs.told) + |writes|, old(svs.asked) + |writes|, old(svs.shown), old(svs.transcoders),
                cs, made, r, e.bytes, outcome);
    if Complete(r, old(svs.eeprom)) {
      SavedIsComplete(r, old(svs.eeprom), want, Recorded(r.settings, cs, made));
    }
  }

  lemma PlannedSized(view: View, want: seq<InputSettings>, inputs: nat)
    requires Plannable(view, want, inputs)
    ensures |want| == inputs
  {
  }

  lemma EndsWritten(line: Line, told: nat, asked: nat, shown: nat, tx: nat -> Transcoders, cs: seq<TxChange>, m: nat,
                    r: Snapshot, view: View, outcome: WriteOutcome)
    requires |r.settings| == r.inputs
    requires forall i :: 0 <= i < |cs| ==> 1 <= cs[i].input <= r.inputs
    requires TxEnds(line, told, asked, shown, tx, cs, m, r, view, outcome)
    ensures Written(outcome) && m <= |cs| && outcome.snapshot == SavedSnapshot(r, view, cs, m)
  {
  }

  lemma EndsSaved(line: Line, told: nat, asked: nat, shown: nat, tx: nat -> Transcoders, cs: seq<TxChange>, m: nat,
                  r: Snapshot, view: View, outcome: WriteOutcome)
    requires |r.settings| == r.inputs
    requires forall i :: 0 <= i < |cs| ==> 1 <= cs[i].input <= r.inputs
    requires TxEnds(line, told, asked, shown, tx, cs, m, r, view, outcome)
    ensures outcome.Saved? <==> StepsWork(line, told, shown, cs, |cs|)
    ensures outcome.Saved? ==> m == |cs| && outcome.unconfirmed == Unconfirmed(line, told, asked, tx, cs, |cs|)
  {
    hide StepWorks;
    hide Unconfirmed;
    hide SavedSnapshot;
  }

  lemma WritesAscend(view: View, want: seq<InputSettings>)
    ensures Ascending(Writes(view, want))
  {
    hide PlanUpTo;
    DiffExact(view, Planned(view, want), |view|);
  }

  lemma WroteAll(dev: Device, before: Device, view: View, want: seq<InputSettings>, answers: nat -> bool, asked: nat)
    requires PartWritten(dev, before, view, Planned(view, want))
    requires var w := Writes(view, want); ReadBackTo(dev, w, answers, asked, |w|)
    ensures dev == Apply(before, Writes(view, want))
  {
    hide Diff;
    hide PlanUpTo;
    var w := Writes(view, want);
    forall i | 0 <= i < |w|
      ensures 0 <= w[i].0 < EEPROM_SIZE && dev[w[i].0] == w[i].1
    {
      assert ReadsBack(dev, w, answers, asked, i);
    }
    AllKept(dev, before, view, Planned(view, want));
  }

  lemma SavedIsComplete(r: Snapshot, dev: Device, want: seq<InputSettings>, before: seq<InputSettings>)
    requires Complete(r, dev) && Plannable(r.view, want, r.inputs) && |before| == r.inputs
    ensures var view := Refresh(r.view, Writes(r.view, want));
            Complete(Snapshot(view, r.inputs, r.hardware, DecodedAll(view, r.inputs, before)),
                     Apply(dev, Writes(r.view, want)))
  {
    hide Decode;
    hide ListRead;
    hide Diff;
    hide PlanUpTo;
    var view, after := Refresh(r.view, Writes(r.view, want)), Apply(dev, Writes(r.view, want));
    StaysComplete(r, dev, want);
    var settings := DecodedAll(view, r.inputs, before);
    forall n | 1 <= n <= r.inputs
      ensures SettingsMatch(settings, after, r.inputs, n)
    {
      DecodeSame(view, after, n, r.inputs, before[n - 1]);
      DecodeTwice(after, n, r.inputs, before[n - 1]);
    }
  }

  // ----- What the fitted hardware allows -----

  function GuardInput(s: InputSettings, before: InputSettings, hw: Hardware, i: nat): InputSettings
    requires i < |hw.scartV3| && i < |hw.vgaV3|
  {
    s.(rgsb := if !hw.scartV3[i] && !hw.vgaV3[i] then before.rgsb else s.rgsb,
       syncBypass := if !hw.scartV3[i] then before.syncBypass else s.syncBypass,
       rgbToYpbpr := if !hw.txRgbToYpbpr then before.rgbToYpbpr else s.rgbToYpbpr,
       ypbprToRgb := if !hw.txYpbprToRgb then before.ypbprToRgb else s.ypbprToRgb)
  }

  // The read is one of `inputs` inputs
  predicate Sized(r: Snapshot) {
    |r.settings| == r.inputs == |r.hardware.scartV3| == |r.hardware.vgaV3|
  }

  function GuardAll(r: Snapshot, wanted: seq<InputSettings>): seq<InputSettings>
    requires Sized(r) && |wanted| == r.inputs
  {
    seq(|wanted|, i requires 0 <= i < |wanted| => GuardInput(wanted[i], r.settings[i], r.hardware, i))
  }

  predicate AllFit(wanted: seq<InputSettings>, inputs: nat) {
    forall i :: 0 <= i < |wanted| ==> |wanted[i].ir| <= IrSlots(inputs)
  }

  // Each input is held to its own hardware and to what was read of it; refused exactly when the number of
  // inputs is another one or a list does not fit
  method GuardSettings(r: Snapshot, wanted: seq<InputSettings>) returns (ok: bool, want: seq<InputSettings>)
    requires Sized(r)
    ensures ok <==> |wanted| == r.inputs && AllFit(wanted, r.inputs)
    ensures ok ==> want == GuardAll(r, wanted)
  {
    want := wanted;
    if |wanted| != r.inputs {
      return false, want;
    }
    for i := 0 to |wanted|
      invariant |want| == |wanted|
      invariant forall j :: 0 <= j < i ==> want[j] == GuardInput(wanted[j], r.settings[j], r.hardware, j)
      invariant AllFit(wanted[..i], r.inputs)
      invariant forall j :: i <= j < |wanted| ==> want[j] == wanted[j]
    {
      want := want[i := GuardInput(want[i], r.settings[i], r.hardware, i)];
      if |want[i].ir| > IrSlots(r.inputs) {
        return false, want;
      }
    }
    ok := true;
  }

  // An input without the module a setting needs keeps that setting through a save, whatever is wanted.
  lemma GuardKeeps(r: Snapshot, dev: Device, wanted: seq<InputSettings>, n: nat)
    requires Complete(r, dev) && Sized(r) && |wanted| == r.inputs && 1 <= n <= r.inputs
    requires Plannable(r.view, GuardAll(r, wanted), r.inputs)
    ensures var after := Apply(dev, Writes(r.view, GuardAll(r, wanted)));
            && (!FlagOf(dev, ScartV3, n) ==> FlagOf(after, SyncBypass, n) == FlagOf(dev, SyncBypass, n))
            && (!FlagOf(dev, ScartV3, n) && !FlagOf(dev, VgaV3, n) ==> FlagOf(after, Rgsb, n) == FlagOf(dev, Rgsb, n))
  {
    hide Apply;
    hide Diff;
    hide PlanUpTo;
    hide DecodeIr;
    assert SettingsMatch(r.settings, dev, r.inputs, n);
    assert r.hardware.scartV3[n - 1] == FlagOf(dev, ScartV3, n) && r.hardware.vgaV3[n - 1] == FlagOf(dev, VgaV3, n);
    assert GuardAll(r, wanted)[n - 1] == GuardInput(wanted[n - 1], r.settings[n - 1], r.hardware, n - 1);
    WrittenHolds(dev, r.view, GuardAll(r, wanted), n);
  }
}
