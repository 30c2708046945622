// Particular runs of the flasher: that the state machine writes what the flash task writes, and a run that
// loses a switch.
module FlashTraces {
  import opened Bytes
  import opened Flasher
  import opened FlashRuns
  import opened FlashSafety
  import opened Options
  import opened PatchTheorems
  import opened ResetVectors

  // ----- The two descriptions of the write loop -----

  // The one running task makes m steps; page write i has outcome number from + i
  function WriteSteps(s: State, outcomes: nat -> PageOutcome, from: nat, m: nat): State {
    if m == 0 then s
    else
      var luck := Luck(true, true, true, UNKNOWN_BOOT, true, outcomes(from + m - 1));
      Next(WriteSteps(s, outcomes, from, m - 1), Step(0, luck))
  }

  predicate AtPage(s: State, chip: nat, boot: Identity, image: seq<byte>, page: nat) {
    s.running == [FlashWriting(chip, boot, image, page)] && s.plugged == Some(chip) && chip < |s.chips|
  }

  lemma WriteOne(s: State, chip: nat, boot: Identity, image: seq<byte>, pages: nat, page: nat, luck: Luck)
    requires AtPage(s, chip, boot, image, page) && |image| == pages * PAGE_SIZE <= FLASH_SIZE && page < pages
    ensures var t := Next(s, Step(0, luck));
            && t.plugged == s.plugged && |t.chips| == |s.chips|
            && t.chips[chip].flash == (if luck.page.done then PageLanded(s.chips[chip].flash, image, page)
                                       else s.chips[chip].flash)
            && t.running == (if luck.page.answered && page + 1 < pages then [FlashWriting(chip, boot, image, page + 1)]
                             else [Finishing])
  {
    hide Refusal;
    hide PageLanded;
    assert s.running[0] == FlashWriting(chip, boot, image, page);
  }

  lemma {:induction false} AnsweredSteps(s: State, chip: nat, boot: Identity, image: seq<byte>, pages: nat,
                                         outcomes: nat -> PageOutcome, from: nat, m: nat)
    requires AtPage(s, chip, boot, image, 0) && |image| == pages * PAGE_SIZE <= FLASH_SIZE
    requires m < pages && AllAnswered(outcomes, from, m)
    ensures var t := WriteSteps(s, outcomes, from, m);
            AtPage(t, chip, boot, image, m) &&
            t.chips[chip].flash == Landed(s.chips[chip].flash, image, outcomes, from, m)
  {
    hide Next;
    hide PageLanded;
    if m > 0 {
      AnsweredSteps(s, chip, boot, image, pages, outcomes, from, m - 1);
      var luck := Luck(true, true, true, UNKNOWN_BOOT, true, outcomes(from + m - 1));
      WriteOne(WriteSteps(s, outcomes, from, m - 1), chip, boot, image, pages, m - 1, luck);
    }
  }

  // Every write loop of the flash task is a run of steps of the state machine: with the page writes that the
  // loop makes, up to and with the first that is not answered, the steps end with the same content on the same
  // chip, and the task is done writing.
  lemma WritingMatches(s: State, chip: nat, boot: Identity, image: seq<byte>, pages: nat,
                       outcomes: nat -> PageOutcome, from: nat, m: nat)
    requires AtPage(s, chip, boot, image, 0) && |image| == pages * PAGE_SIZE <= FLASH_SIZE
    requires 0 < m <= pages && AllAnswered(outcomes, from, m - 1)
    requires m == pages || !outcomes(from + m - 1).answered
    ensures var t := WriteSteps(s, outcomes, from, m);
            && t.running == [Finishing] && chip < |t.chips|
            && t.chips[chip].flash == Landed(s.chips[chip].flash, image, outcomes, from, m)
  {
    hide Next;
    hide PageLanded;
    AnsweredSteps(s, chip, boot, image, pages, outcomes, from, m - 1);
    var luck := Luck(true, true, true, UNKNOWN_BOOT, true, outcomes(from + m - 1));
    WriteOne(WriteSteps(s, outcomes, from, m - 1), chip, boot, image, pages, m - 1, luck);
  }

  // ----- A switch that is lost -----

  // An urboot 7.5 that says it is a vector bootloader and has its vector number 0
  const ZERO_TABLE: seq<byte> := [2, 0, 0x00, 0xCF, 4, 0x3D]
  const ZERO_BOOT: Identity := BootInfo(32, 120, ZERO_TABLE, true)
  const ZERO_DEVICE := Device(true, true, true, false, 0x7F00, 0)

  lemma ZeroIsAccepted()
    ensures Evaluate(ZERO_BOOT) == ZERO_DEVICE
  {
    assert SyncInfo(32, 120) == 8279;
    assert Bit(4, 2) && !Bit(4, 3);
  }

  // A switch with it, whose reset leads to it
  predicate ZeroSwitch(c: ChipState) {
    c.insync == 32 && c.ok == 120 && c.flash[FLASH_SIZE - 6..] == ZERO_TABLE && WordAt(c.flash, 0) == 0xCF7F
  }

  // A firmware as the switch has them: its reset is a jmp to 0x1A6
  predicate KnownFirmware(image: seq<byte>) {
    0x1A6 < |image| <= 0x7F00 && image[..4] == [0x0C, 0x94, 0xD3, 0x00]
  }

  const GOOD := Luck(true, true, true, UNKNOWN_BOOT, true, PageOutcome(true, true))

  lemma Then(s: State, actions: seq<Action>, a: Action)
    ensures Run(s, actions + [a]) == Next(Run(s, actions), a)
  {
    assert (actions + [a])[..|actions|] == actions;
  }

  // One step of the one running task
  lemma Stepped(s: State, actions: seq<Action>, l: Local)
    requires Run(s, actions).running == [l]
    ensures var before := Run(s, actions);
            var (after, next) := TaskStep(before, l, GOOD);
            Run(s, actions + [Step(0, GOOD)]) == after.(running := if l.Finishing? then [] else [next])
  {
    hide Run;
    hide TaskStep;
    Then(s, actions, Step(0, GOOD));
    assert Run(s, actions).running[0] == l;
  }

  lemma ZeroIdentified(c: ChipState)
    requires ZeroSwitch(c)
    ensures Identify(c, GOOD) == ZERO_BOOT
  {
    assert SyncInfo(32, 120) == 8279;
    assert Bit(4, 2);
  }

  lemma Nothing(s: State)
    ensures Run(s, []) == s
  {
  }

  lemma ZeroChecked(c: ChipState) returns (actions: seq<Action>)
    requires ZeroSwitch(c)
    ensures Run(Boot([c]), actions) ==
            State([c], Some(0), 1, Idle, [], Free, ZERO_DEVICE, ZERO_BOOT, 1, None, [Identified(ZERO_BOOT)])
  {
    hide Run;
    hide Evaluate;
    hide Identify;
    hide PageLanded;
    hide Refusal;
    hide CanFlash;
    hide WritePage;
    ZeroIdentified(c);
    ZeroIsAccepted();
    hide StepOf;
    var b := Boot([c]);
    Nothing(b);
    actions := [];
    Then(b, actions, Plug(0)); actions := actions + [Plug(0)];
    Then(b, actions, StartCheck(true)); actions := actions + [StartCheck(true)];
    Stepped(b, actions, CheckStarted); actions := actions + [Step(0, GOOD)];
    Stepped(b, actions, CheckEnter(1)); actions := actions + [Step(0, GOOD)];
    Stepped(b, actions, CheckStore(1, Some(ZERO_BOOT))); actions := actions + [Step(0, GOOD)];
    Stepped(b, actions, Finishing); actions := actions + [Step(0, GOOD)];
  }

  lemma ZeroPreviewed(c: ChipState) returns (actions: seq<Action>)
    requires ZeroSwitch(c)
    ensures Run(Boot([c]), actions) ==
            State([c], Some(0), 1, Idle, [], Free, ZERO_DEVICE.(vectorVerified := true), ZERO_BOOT, 1, None,
                  [Identified(ZERO_BOOT), Previewed(Some(0), true)])
  {
    hide Run;
    hide Evaluate;
    hide Identify;
    hide PageLanded;
    hide Refusal;
    hide CanFlash;
    hide WritePage;
    hide RjmpToBootloader;
    ZeroIdentified(c);
    KnownRjmp();
    hide StepOf;
    actions := ZeroChecked(c);
    var b := Boot([c]);
    Then(b, actions, AskPreview); actions := actions + [AskPreview];
    Then(b, actions, StartPreview(true)); actions := actions + [StartPreview(true)];
    Stepped(b, actions, PreviewStarted); actions := actions + [Step(0, GOOD)];
    Stepped(b, actions, PreviewEnter(ZERO_DEVICE, ZERO_BOOT)); actions := actions + [Step(0, GOOD)];
    Stepped(b, actions, PreviewStore(Some(0), true)); actions := actions + [Step(0, GOOD)];
    Stepped(b, actions, Finishing); actions := actions + [Step(0, GOOD)];
  }

  // The patch of such a firmware for it succeeds, and leaves the reset as it was.
  lemma ZeroPatch(image: seq<byte>)
    requires KnownFirmware(image)
    ensures var (error, out) := ToWrite(image, ZERO_DEVICE.(vectorVerified := true));
            && error.NoError? && |out| == |Padded(image)| <= 0x7F00 && |out| >= PAGE_SIZE
            && ResetTarget(out, FLASH_SIZE) == 0x1A6
  {
    hide Patch;
    hide ResetTarget;
    hide RjmpTarget;
    hide IsJmp;
    hide IsRjmp;
    hide JmpTarget;
    hide RjmpToBootloader;
    var padded := Padded(image);
    assert padded[..4] == image[..4];
    KnownReset(padded);
    PatchRefusal(padded, 0x7F00, 0);
    PatchKeepsEntry(padded, 0x7F00, 0);
    var out := Patch(padded, 0x7F00, 0, FLASH_SIZE).1;
    JmpIsReset(out);
  }

  lemma JmpIsReset(image: seq<byte>)
    requires |image| >= 4 && IsJmp(WordAt(image, 0))
    ensures ResetTarget(image, FLASH_SIZE) == JmpTarget(image, 0)
  {
  }

  // A run that starts with one switch whose reset leads to its bootloader, flashes this firmware as it should be
  // flashed, and ends with the reset leading elsewhere
  predicate Loses(c: ChipState, image: seq<byte>, actions: seq<Action>) {
    var s := Run(Boot([c]), actions);
    && Recoverable(c.flash, 0x7F00) && |s.chips| == 1 && s.staged == Some(image)
    && s.log == [Identified(ZERO_BOOT), Previewed(Some(0), true), PageWritten(0, ZERO_BOOT, 0)]
    && !Recoverable(s.chips[0].flash, 0x7F00)
  }

  // A run that loses a switch: it is checked, previewed and flashed with every answer right, and from the first
  // page on its reset no longer leads to its bootloader.
  lemma ZeroIsLost(c: ChipState, image: seq<byte>)
    requires ZeroSwitch(c) && KnownFirmware(image)
    ensures exists actions :: Loses(c, image, actions)
  {
    hide Loses;
    var actions := LosingRun(c, image);
  }

  lemma LosingRun(c: ChipState, image: seq<byte>) returns (actions: seq<Action>)
    requires ZeroSwitch(c) && KnownFirmware(image)
    ensures Loses(c, image, actions)
  {
    hide Run;
    hide Evaluate;
    hide Identify;
    hide PageLanded;
    hide ToWrite;
    hide Padded;
    hide RjmpTarget;
    hide RjmpToBootloader;
    hide ResetTarget;
    hide ResetIsJump;
    hide StepOf;
    ZeroIdentified(c);
    ZeroIsAccepted();
    ZeroPatch(image);
    KnownRjmp();
    PreviewMeansRecoverable(c.flash, ZERO_BOOT);
    actions := ZeroPreviewed(c);
    var b := Boot([c]);
    Then(b, actions, Stage(image)); actions := actions + [Stage(image)];
    Then(b, actions, AskUsb); actions := actions + [AskUsb];
    Then(b, actions, AskFlash); actions := actions + [AskFlash];
    Then(b, actions, StartFlash(true)); actions := actions + [StartFlash(true)];
    Stepped(b, actions, FlashStarted); actions := actions + [Step(0, GOOD)];
    var d := ZERO_DEVICE.(vectorVerified := true);
    Stepped(b, actions, FlashEnter(d, ZERO_BOOT, image)); actions := actions + [Step(0, GOOD)];
    var out := ToWrite(image, d).1;
    Stepped(b, actions, FlashWriting(0, ZERO_BOOT, out, 0)); actions := actions + [Step(0, GOOD)];
    FirstPageResets(c.flash, out);
  }

  lemma FirstPageResets(flash: Flash, image: seq<byte>)
    requires PAGE_SIZE <= |image| <= FLASH_SIZE
    ensures ResetTarget(PageLanded(flash, image, 0), FLASH_SIZE) == ResetTarget(image, FLASH_SIZE)
  {
    hide RjmpTarget;
    var after := PageLanded(flash, image, 0);
    assert after[0] == image[0] && after[1] == image[1] && after[2] == image[2] && after[3] == image[3];
  }
}
