// The switch's settings in its EEPROM: the map, the decoder and the write planner
// (src/core/svs_config.h).
module SvsConfig {
  import opened Bytes

  const EEPROM_SIZE := 1024
  const IR_REGION := 250
  const IR_COMMAND_OFFSET := 250
  const IR_EMPTY: byte := 0xFF
  const TX_RGB_TO_YPBPR := 710
  const TX_YPBPR_TO_RGB := 711
  const MAX_INPUTS := 32
  const UNREAD: Cell := -1

  // One byte of the view the bridge has of the EEPROM; -1 when it has not been read
  type Cell = c: int | -1 <= c < 256

  type View = s: seq<Cell> | |s| == 1024 witness seq(1024, i => -1)

  // The EEPROM itself
  type Device = s: seq<byte> | |s| == 1024 witness seq(1024, i => 0)

  // The per-input bitmaps. The first three are settings, the last two say what module is fitted.
  datatype Flag = AutoProfile | Rgsb | SyncBypass | ScartV3 | VgaV3

  // The bitmaps that are settings
  type Setting = f: Flag | f.AutoProfile? || f.Rgsb? || f.SyncBypass? witness AutoProfile

  function Base(f: Flag): nat {
    match f
    case AutoProfile => 513
    case Rgsb => 550
    case SyncBypass => 590
    case ScartV3 => 630
    case VgaV3 => 670
  }

  predicate ActiveLow(f: Flag) { f.Rgsb? || f.ScartV3? || f.VgaV3? }

  datatype IrCode = IrCode(address: byte, command: byte)

  datatype InputSettings = InputSettings(
    autoProfile: bool,
    rgsb: bool,
    syncBypass: bool,
    rgbToYpbpr: bool,
    ypbprToRgb: bool,
    ir: seq<IrCode>)

  const DEFAULT_SETTINGS := InputSettings(true, false, false, false, false, [])

  predicate Wanted(f: Setting, s: InputSettings)
  {
    match f
    case AutoProfile => s.autoProfile
    case Rgsb => s.rgsb
    case SyncBypass => s.syncBypass
  }

  // ----- Addresses -----

  function FlagAddr(f: Flag, n: nat): nat
    requires 1 <= n
  {
    Base(f) + (n - 1) / 8
  }

  function IrSlots(inputs: nat): nat { if inputs > 0 then IR_REGION / (inputs + 1) else 0 }

  // Where row k of the IR table starts, k * (inputs + 1): a row has a byte for each input and one more
  function Row(k: nat, inputs: nat): nat { if k == 0 then 0 else Row(k - 1, inputs) + (inputs + 1) }

  function IrAddressAddr(n: nat, k: nat, inputs: nat): nat { n + Row(k, inputs) }

  function IrCommandAddr(n: nat, k: nat, inputs: nat): nat { IrAddressAddr(n, k, inputs) + IR_COMMAND_OFFSET }

  function BitmapBytes(inputs: nat): nat { (inputs + 7) / 8 }

  // ----- The view, and decoding it -----

  function Get(view: View, addr: int): Cell {
    if 0 <= addr < EEPROM_SIZE then view[addr] else UNREAD
  }

  function Put(view: View, addr: int, v: byte): View {
    if 0 <= addr < EEPROM_SIZE then view[addr := v] else view
  }

  predicate FlagOf(view: View, f: Flag, n: nat)
    requires 1 <= n
  {
    var v := Get(view, FlagAddr(f, n));
    var isSet := v >= 0 && Bit(v, (n - 1) % 8);
    if ActiveLow(f) then !isSet else isSet
  }

  // Slot k of input n ends the list: the address is unread or empty, or the command is unread
  predicate EndsAt(view: View, n: nat, inputs: nat, k: nat) {
    var a := Get(view, IrAddressAddr(n, k, inputs));
    a < 0 || a == IR_EMPTY || Get(view, IrCommandAddr(n, k, inputs)) < 0
  }

  function CodeAt(view: View, n: nat, inputs: nat, k: nat): IrCode
    requires !EndsAt(view, n, inputs, k)
  {
    IrCode(Get(view, IrAddressAddr(n, k, inputs)), Get(view, IrCommandAddr(n, k, inputs)))
  }

  // The IR codes of input n from slot k on
  function DecodeIr(view: View, n: nat, inputs: nat, k: nat): seq<IrCode>
    decreases IrSlots(inputs) - k
  {
    if k >= IrSlots(inputs) || EndsAt(view, n, inputs, k) then []
    else [CodeAt(view, n, inputs, k)] + DecodeIr(view, n, inputs, k + 1)
  }

  // The EEPROM part of an input's settings; the transcoder flags of `s` are not in the EEPROM and stay
  function Decode(view: View, n: nat, inputs: nat, s: InputSettings): InputSettings
    requires 1 <= n
  {
    s.(autoProfile := FlagOf(view, AutoProfile, n),
       rgsb := FlagOf(view, Rgsb, n),
       syncBypass := FlagOf(view, SyncBypass, n),
       ir := DecodeIr(view, n, inputs, 0))
  }

  // ----- Planning, step by step -----

  function PutFlag(view: View, f: Flag, n: nat, on: bool): View
    requires 1 <= n
  {
    var v := Get(view, FlagAddr(f, n));
    if v < 0 then view
    else Put(view, FlagAddr(f, n), WithByteBit(v, (n - 1) % 8, if ActiveLow(f) then !on else on))
  }

  // What slot k of a list holding `codes` is given: its code, or the empty mark after the last one
  function SlotCode(codes: seq<IrCode>, k: nat): IrCode {
    if k < |codes| then codes[k] else IrCode(IR_EMPTY, IR_EMPTY)
  }

  // The view once the first k slots of input n are written
  function PutCodes(view: View, codes: seq<IrCode>, n: nat, inputs: nat, k: nat): View {
    if k == 0 then view
    else
      var v := PutCodes(view, codes, n, inputs, k - 1);
      Put(Put(v, IrAddressAddr(n, k - 1, inputs), SlotCode(codes, k - 1).address),
          IrCommandAddr(n, k - 1, inputs), SlotCode(codes, k - 1).command)
  }

  function PutFlags(view: View, s: InputSettings, n: nat): View
    requires 1 <= n
  {
    PutFlag(PutFlag(PutFlag(view, AutoProfile, n, s.autoProfile), Rgsb, n, s.rgsb), SyncBypass, n, s.syncBypass)
  }

  // The slots the planner writes: the codes and one empty slot, and the old list's tail with its end
  function SlotsWritten(read: View, codes: seq<IrCode>, n: nat, inputs: nat): nat {
    Min(Max(|codes| + 1, |DecodeIr(read, n, inputs, 0)| + 1), IrSlots(inputs))
  }

  // The planned view once inputs 1..m are done
  function PlanUpTo(read: View, want: seq<InputSettings>, inputs: nat, m: nat): View
    requires m <= |want|
  {
    if m == 0 then read
    else
      var s := want[m - 1];
      PutCodes(PutFlags(PlanUpTo(read, want, inputs, m - 1), s, m), s.ir, m, inputs,
               SlotsWritten(read, s.ir, m, inputs))
  }

  // The bytes below address `top` that a planned view changes, in address order
  function Diff(read: View, out: View, top: nat): seq<(int, byte)>
    requires top <= EEPROM_SIZE
  {
    if top == 0 then []
    else if out[top - 1] >= 0 && out[top - 1] != read[top - 1] then Diff(read, out, top - 1) + [(top - 1, out[top - 1])]
    else Diff(read, out, top - 1)
  }

  function Planned(read: View, want: seq<InputSettings>): View {
    PlanUpTo(read, want, |want|, |want|)
  }

  function Writes(read: View, want: seq<InputSettings>): seq<(int, byte)> {
    Diff(read, Planned(read, want), |read|)
  }

  // The device once it has taken the writes, in order
  function Apply(dev: Device, writes: seq<(int, byte)>): Device {
    if writes == [] then dev
    else
      var (a, v) := writes[|writes| - 1];
      var before := Apply(dev, writes[..|writes| - 1]);
      if 0 <= a < EEPROM_SIZE then before[a := v] else before
  }

  // The view once it has been given the written bytes
  function Refresh(view: View, writes: seq<(int, byte)>): View {
    if writes == [] then view
    else Put(Refresh(view, writes[..|writes| - 1]), writes[|writes| - 1].0, writes[|writes| - 1].1)
  }

  // What the bridge has read is what the device holds
  predicate Agrees(view: View, dev: Device) {
    forall a :: 0 <= a < EEPROM_SIZE && view[a] >= 0 ==> view[a] == dev[a]
  }

  // ----- When a plan exists -----

  predicate FlagsRead(read: View, n: nat)
    requires 1 <= n
  {
    && Get(read, FlagAddr(AutoProfile, n)) >= 0
    && Get(read, FlagAddr(Rgsb, n)) >= 0
    && Get(read, FlagAddr(SyncBypass, n)) >= 0
  }

  // Input n's flags were read and its codes fit
  predicate InputPlannable(read: View, want: seq<InputSettings>, inputs: int, n: nat)
    requires 1 <= n <= |want| == inputs
  {
    FlagsRead(read, n) && |want[n - 1].ir| <= IrSlots(inputs)
  }

  predicate Plannable(read: View, want: seq<InputSettings>, inputs: int) {
    && |want| == inputs
    && 1 <= inputs <= MAX_INPUTS
    && (forall n :: 1 <= n <= inputs ==> InputPlannable(read, want, inputs, n))
  }

  // ----- What each address holds once planned, by looking the address up -----

  datatype Place = IrAddress(n: nat, k: nat) | IrCommand(n: nat, k: nat) | FlagByte(f: Setting, i: nat) | Other

  // What an address is for. Column 0 of the IR table belongs to no input.
  function Locate(a: nat, inputs: nat): Place {
    var b := if a < IR_REGION then a else a - IR_COMMAND_OFFSET;
    var n, k := b % (inputs + 1), b / (inputs + 1);
    if a < 2 * IR_REGION then
      if n == 0 || k >= IrSlots(inputs) then Other else if a < IR_REGION then IrAddress(n, k) else IrCommand(n, k)
    else if 513 <= a < 517 then FlagByte(AutoProfile, a - 513)
    else if 550 <= a < 554 then FlagByte(Rgsb, a - 550)
    else if 590 <= a < 594 then FlagByte(SyncBypass, a - 590)
    else Other
  }

  // A bitmap byte with its first `count` bits set as wanted by inputs first+1, first+2, ...
  function FoldBits(v: byte, want: seq<InputSettings>, f: Setting, first: nat, count: nat): byte
    requires count <= 8 && (count > 0 ==> first + count <= |want|)
  {
    if count == 0 then v
    else
      var on := Wanted(f, want[first + count - 1]);
      WithByteBit(FoldBits(v, want, f, first, count - 1), count - 1, if ActiveLow(f) then !on else on)
  }

  // How many of the eight inputs of bitmap byte i are among inputs 1..m
  function BitsUsed(m: nat, i: nat): nat { if m < 8 * i then 0 else Min(m - 8 * i, 8) }

  function PlannedCell(read: View, want: seq<InputSettings>, inputs: nat, m: nat, a: nat): Cell
    requires m <= |want| && a < EEPROM_SIZE
  {
    match Locate(a, inputs)
    case IrAddress(n, k) =>
      if 1 <= n <= m && k < SlotsWritten(read, want[n - 1].ir, n, inputs)
      then SlotCode(want[n - 1].ir, k).address else read[a]
    case IrCommand(n, k) =>
      if 1 <= n <= m && k < SlotsWritten(read, want[n - 1].ir, n, inputs)
      then SlotCode(want[n - 1].ir, k).command else read[a]
    case FlagByte(f, i) =>
      if read[a] < 0 then UNREAD else FoldBits(read[a], want, f, 8 * i, BitsUsed(m, i))
    case Other => read[a]
  }
}
