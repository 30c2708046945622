// The flasher's tasks and calls as a state machine (src/platform/esp32/main/svs_flasher.cpp): any
// number of switches plugged and unplugged at any moment, one caller, background tasks that interleave
// with both, and a page write as one step. A run may stop after any step.
module FlashRuns {
  import opened Bytes
  import opened Flasher
  import opened Options
  import opened ResetVectors

  // A switch: what its bootloader answers to a sync, and its flash
  datatype ChipState = ChipState(insync: byte, ok: byte, flash: Flash)

  datatype Task = Idle | Checking | Previewing | Flashing | Probing

  // Where a background task is. Each value is one stretch between two touches of shared state.
  datatype Local =
    | CheckStarted
    | CheckEnter(connection: nat)
    | CheckStore(connection: nat, found: Option<Identity>)
    | PreviewStarted
    | PreviewEnter(d: Device, checked: Identity)
    | PreviewStore(at: Option<nat>, matches: bool)
    | FlashStarted
    | FlashEnter(d: Device, checked: Identity, staged: seq<byte>)
    | FlashWriting(chip: nat, boot: Identity, image: seq<byte>, page: nat)
    | ProbeStarted
    | Finishing

  // Where the caller is: the two calls that look at the state before they start a task do so in steps
  datatype Caller = Free | PreviewAllowed | SawUsb(connected: bool, connections: nat) | FlashAllowed

  // What has happened, for the properties below
  datatype Event =
    | Identified(boot: Identity)
    | NotIdentified
    | Previewed(at: Option<nat>, matches: bool)
    | PageWritten(chip: nat, boot: Identity, page: nat)

  datatype State = State(
    chips: seq<ChipState>,
    plugged: Option<nat>,
    connections: nat,
    task: Task,
    running: seq<Local>,
    caller: Caller,
    device: Device,
    checkedBoot: Identity,
    checkedConnection: nat,
    staged: Option<seq<byte>>,
    log: seq<Event>)

  const UNKNOWN_BOOT: Identity := BootInfo(0, 0, [0, 0, 0, 0, 0, 0], false)

  function Boot(chips: seq<ChipState>): State {
    State(chips, None, 0, Idle, [], Free, NO_DEVICE, UNKNOWN_BOOT, 0, None, [])
  }

  // The luck of one step: whether the serial session opens and the bootloader answers, whether its table
  // (and the reset vector) can be read and what is left in the buffer if not, and what a page write does
  datatype Luck = Luck(
    opens: bool,
    answers: bool,
    tableRead: bool,
    garbage: Identity,
    resetRead: bool,
    page: PageOutcome)

  datatype Action =
    | StartCheck(created: bool)
    | AskPreview
    | StartPreview(created: bool)
    | AskUsb
    | AskFlash
    | StartFlash(created: bool)
    | StartProbe(created: bool)
    | Stage(image: seq<byte>)
    | Clear
    | Plug(chip: nat)
    | Unplug
    | Step(i: nat, luck: Luck)

  // ----- Calls -----

  // start_task: claims the slot, and gives it back if the task cannot be created
  function Start(s: State, task: Task, first: Local, created: bool): State {
    if s.task.Idle? && s.plugged.Some? && created then
      s.(task := task, running := s.running + [first], caller := Free)
    else s.(caller := Free)
  }

  // The part of status() that decides: nothing stands in the way of flashing
  predicate CanFlash(s: State, connected: bool, connections: nat) {
    var stale := s.device.checked && (!connected || connections != s.checkedConnection);
    var d := if stale then NO_DEVICE else s.device;
    && s.task.Idle? && connected && d.checked && d.compatible
    && s.staged.Some? && |s.staged.value| <= d.appSpace
    && (d.vector ==> d.vectorVerified)
  }

  // ----- Task steps -----

  // What reading the bootloader's identity gives
  function Identify(c: ChipState, luck: Luck): Identity {
    var classic := c.insync == STK_INSYNC && c.ok == STK_OK;
    if !classic && McuId(c.insync, c.ok) == MCU_ID && ReadsFlash(c.insync, c.ok) && luck.tableRead then
      BootInfo(c.insync, c.ok, c.flash[FLASH_SIZE - 6..], true)
    else BootInfo(c.insync, c.ok, luck.garbage.table, false)
  }

  // The plugged switch, if the session opens and its bootloader answers
  function Reached(s: State, luck: Luck): Option<nat> {
    if luck.opens && luck.answers && s.plugged.Some? && s.plugged.value < |s.chips| then s.plugged else None
  }

  // One page write, to the switch the session was opened with
  function WritePage(s: State, l: Local, luck: Luck): (State, Local)
    requires l.FlashWriting?
  {
    var outcome := if s.plugged == Some(l.chip) then luck.page else PAGE_LOST;
    var more := outcome.answered && (l.page + 2) * PAGE_SIZE <= |l.image|;
    var next := if more then l.(page := l.page + 1) else Finishing;
    if !outcome.done || l.chip >= |s.chips| || !((l.page + 1) * PAGE_SIZE <= |l.image| <= FLASH_SIZE) then (s, next)
    else
      var c := s.chips[l.chip];
      (s.(chips := s.chips[l.chip := c.(flash := PageLanded(c.flash, l.image, l.page))],
          log := s.log + [PageWritten(l.chip, l.boot, l.page)]), next)
  }

  // The state after the next step of a task, and where the task is then
  function TaskStep(s: State, l: Local, luck: Luck): (State, Local) {
    match l
    case CheckStarted => (s, CheckEnter(s.connections))
    case CheckEnter(connection) =>
      if !luck.opens then (s, Finishing)
      else
        var at := Reached(s, luck);
        (s, CheckStore(connection, if at.Some? then Some(Identify(s.chips[at.value], luck)) else None))
    case CheckStore(connection, found) =>
      if found.None? then (s.(device := NO_DEVICE, log := s.log + [NotIdentified]), Finishing)
      else (s.(device := Evaluate(found.value), checkedBoot := found.value, checkedConnection := connection,
               log := s.log + [Identified(found.value)]), Finishing)
    case PreviewStarted => (s, PreviewEnter(s.device, s.checkedBoot))
    case PreviewEnter(d, checked) =>
      if !luck.opens then (s, Finishing)
      else
        var at := Reached(s, luck);
        (s, PreviewStore(
             at,
             && at.Some? && SameBootloader(Identify(s.chips[at.value], luck), checked) && luck.resetRead
             && WordAt(s.chips[at.value].flash, 0) == RjmpToBootloader(d.appSpace, FLASH_SIZE)))
    case PreviewStore(at, matches) =>
      (s.(device := s.device.(vectorVerified := matches), log := s.log + [Previewed(at, matches)]), Finishing)
    case FlashStarted =>
      if s.staged.None? then (s, Finishing) else (s, FlashEnter(s.device, s.checkedBoot, s.staged.value))
    case FlashEnter(d, checked, staged) =>
      var at := Reached(s, luck);
      var session := if at.Some? then Entered(Identify(s.chips[at.value], luck)) else NoAnswer;
      if Refusal(staged, d, checked, session).Some? then (s, Finishing)
      else (s, FlashWriting(at.value, session.boot, ToWrite(staged, d).1, 0))
    case FlashWriting(_, _, _, _) => WritePage(s, l, luck)
    case ProbeStarted => (s, Finishing)
    case Finishing => (s.(task := Idle), Finishing)
  }

  // One step of running task i; a task that has finished is gone
  function StepOf(s: State, i: nat, luck: Luck): State
    requires i < |s.running|
  {
    var (s', l) := TaskStep(s, s.running[i], luck);
    if s.running[i].Finishing? then s'.(running := s.running[..i] + s.running[i + 1..])
    else s'.(running := s.running[i := l])
  }

  // What an action makes of a state; an action that is not possible changes nothing
  function Next(s: State, a: Action): State {
    match a
    case StartCheck(created) => if s.caller.Free? then Start(s, Checking, CheckStarted, created) else s
    case AskPreview =>
      if s.caller.Free? && s.task.Idle? && s.device.checked && s.device.vector then s.(caller := PreviewAllowed) else s
    case StartPreview(created) => if s.caller.PreviewAllowed? then Start(s, Previewing, PreviewStarted, created) else s
    case AskUsb => if s.caller.Free? then s.(caller := SawUsb(s.plugged.Some?, s.connections)) else s
    case AskFlash =>
      if s.caller.SawUsb? then
        s.(caller := if CanFlash(s, s.caller.connected, s.caller.connections) then FlashAllowed else Free)
      else s
    case StartFlash(created) => if s.caller.FlashAllowed? then Start(s, Flashing, FlashStarted, created) else s
    case StartProbe(created) => if s.caller.Free? then Start(s, Probing, ProbeStarted, created) else s
    case Stage(image) => if s.caller.Free? && s.task.Idle? && |image| > 0 then s.(staged := Some(image)) else s
    case Clear => if s.caller.Free? && s.task.Idle? then s.(staged := None) else s
    case Plug(chip) => s.(plugged := Some(chip), connections := s.connections + 1)
    case Unplug => s.(plugged := None)
    case Step(i, luck) => if i < |s.running| then StepOf(s, i, luck) else s
  }

  function Run(s: State, actions: seq<Action>): State {
    if actions == [] then s else Next(Run(s, actions[..|actions| - 1]), actions[|actions| - 1])
  }

  // ----- What the history says -----

  // What the last check found, if it found a bootloader
  function LastCheck(log: seq<Event>): Option<Identity> {
    if log == [] then None
    else
      match log[|log| - 1]
      case Identified(boot) => Some(boot)
      case NotIdentified => None
      case _ => LastCheck(log[..|log| - 1])
  }

  // A preview has matched since the last check, and none has failed after it
  predicate VerifiedSince(log: seq<Event>) {
    log != [] &&
      match log[|log| - 1]
      case Previewed(_, matches) => matches
      case PageWritten(_, _, _) => VerifiedSince(log[..|log| - 1])
      case _ => false
  }

  // A page may be written to this bootloader after this history
  predicate MayWrite(log: seq<Event>, boot: Identity) {
    && LastCheck(log) == Some(boot)
    && Evaluate(boot).compatible
    && (Evaluate(boot).vector ==> VerifiedSince(log))
  }

  // Every page write came when it might
  predicate Gated(log: seq<Event>) {
    forall i :: 0 <= i < |log| && log[i].PageWritten? ==> MayWrite(log[..i], log[i].boot)
  }
}
