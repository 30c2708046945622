// Identifying the bootloader and writing a firmware image (src/platform/esp32/main/svs_flasher.cpp).
module Flasher {
  import opened Bytes
  import opened Options
  import opened PatchTheorems
  import opened ResetVectors

  const PAGE_SIZE := 128
  const MCU_ID := 119
  const STK_INSYNC: byte := 0x14
  const STK_OK: byte := 0x10
  const UB_N_MCU := 2040

  // ----- The bootloader -----

  // What the bootloader reveals of itself: its two sync bytes, and the table at the top of the flash
  // if it could be read (zeros otherwise)
  datatype BootInfo = BootInfo(insync: byte, ok: byte, table: seq<byte>, tableRead: bool)

  type Identity = b: BootInfo | |b.table| == 6 witness BootInfo(0, 0, [0, 0, 0, 0, 0, 0], false)

  predicate SameBootloader(a: Identity, b: Identity) {
    a.insync == b.insync && a.ok == b.ok && a.tableRead == b.tableRead && a.table == b.table
  }

  // The sync bytes as a number: the MCU in its remainder, the features in its quotient
  function SyncInfo(insync: byte, ok: byte): nat {
    if insync == 255 && ok == 254 then STK_INSYNC as int * 255 + STK_OK as int
    else if ok > insync then insync as int * 255 + (ok as int - 1)
    else insync as int * 255 + ok as int
  }

  function McuId(insync: byte, ok: byte): nat { SyncInfo(insync, ok) % UB_N_MCU }

  // Feature bit 2: reads flash. Feature bit 3: writes without erasing.
  predicate ReadsFlash(insync: byte, ok: byte) { Bit(SyncInfo(insync, ok) / UB_N_MCU, 2) }

  predicate WritesWithoutErase(insync: byte, ok: byte) { Bit(SyncInfo(insync, ok) / UB_N_MCU, 3) }

  datatype Device = Device(
    checked: bool,
    compatible: bool,
    vector: bool,
    vectorVerified: bool,
    appSpace: nat,
    vectorNum: nat)

  const NO_DEVICE := Device(false, false, false, false, 0, 0)

  function BootloaderSize(b: Identity): nat { b.table[0] as int % 128 * PAGE_SIZE }

  predicate IsUrboot(b: Identity) {
    var version, rjmp := b.table[5], Word(b.table[3], b.table[2]);
    0x3D <= version <= 0x67 && (rjmp == 0x9508 || rjmp / 0x1000 == 0xC)
  }

  // The verdict on what a bootloader reveals of itself
  function Evaluate(b: Identity): Device {
    var d := NO_DEVICE.(checked := true);
    if b.insync == STK_INSYNC && b.ok == STK_OK then d
    else if McuId(b.insync, b.ok) != MCU_ID then d
    else if !ReadsFlash(b.insync, b.ok) then d
    else if WritesWithoutErase(b.insync, b.ok) then d
    else if !b.tableRead then d
    else if !IsUrboot(b) || BootloaderSize(b) < 64 || BootloaderSize(b) > 2048 then d
    else
      var vectorNum := b.table[1] as int % 128;
      // up to version 7.7 a capability flags vector bootloaders too
      var vector := vectorNum != 0 || (b.table[5] <= 0x3F && (Bit(b.table[4], 2) || Bit(b.table[4], 3)));
      d.(compatible := true,
         appSpace := FLASH_SIZE - BootloaderSize(b),
         vector := vector,
         vectorNum := if vector then vectorNum else 0)
  }

  // Every bootloader that passes starts as many pages below the end of the flash as it says, on a page, within the
  // reach of a reset rjmp.
  lemma EvaluateReachable(b: Identity)
    requires Evaluate(b).compatible
    ensures var space := Evaluate(b).appSpace;
            && space + 128 * (b.table[0] as int % 128) == FLASH_SIZE
            && space % PAGE_SIZE == 0 && FLASH_SIZE - 2048 <= space <= FLASH_SIZE - PAGE_SIZE
            && Reachable(space)
  {
    var pages := b.table[0] as int % 128;
    assert 1 <= pages <= 16;
    DivUnique(FLASH_SIZE - 128 * pages, 128, 256 - pages, 0);
  }

  // What an urboot answers to a sync: the number features * 2040 + mcu in base 255, its second digit kept different
  // from the first, and never the answer of a classic bootloader
  function SyncBytes(mcu: nat, features: nat): (byte, byte)
    requires mcu < 2040 && features < 31
  {
    var info := features * 2040 + mcu;
    var insync, low := info / 255, info % 255;
    var ok := if low < insync then low else low + 1;
    if insync == 20 && ok == 16 then (255, 254) else (insync, ok)
  }

  lemma SyncRoundTrip(mcu: nat, features: nat)
    requires mcu < 2040 && features < 31
    ensures var (insync, ok) := SyncBytes(mcu, features);
            && !(insync == 20 && ok == 16) && McuId(insync, ok) == mcu
            && (ReadsFlash(insync, ok) <==> features / 4 % 2 == 1)
            && (WritesWithoutErase(insync, ok) <==> features / 8 % 2 == 1)
  {
    var info := features * 2040 + mcu;
    var (insync, ok) := SyncBytes(mcu, features);
    DivUnique(info, 2040, features, mcu);
    assert info == 255 * (info / 255) + info % 255;
    assert SyncInfo(insync, ok) == info;
    BitsTwoAndThree(features);
  }

  // A switch is accepted if and only if it answers as an urboot of an ATmega328P that reads flash and erases pages, and
  // its table could be read and is one of versions 7.5 to 12.7, with a size of 1 to 16 pages. It is a vector bootloader
  // if it has a vector number, or says so in the way of the versions up to 7.7.
  lemma EvaluateExact(mcu: nat, features: nat, table: seq<byte>, tableRead: bool)
    requires mcu < 2040 && features < 31 && |table| == 6
    ensures var (insync, ok) := SyncBytes(mcu, features);
            var d, pages, version := Evaluate(BootInfo(insync, ok, table, tableRead)), table[0] as int % 128, table[5];
            && d.checked && !d.vectorVerified
            && (d.compatible <==>
                  && mcu == 119 && features / 4 % 2 == 1 && features / 8 % 2 == 0 && tableRead
                  && 7 * 8 + 5 <= version <= 12 * 8 + 7 && 1 <= pages <= 16
                  && ((table[2] == 0x08 && table[3] == 0x95) || table[3] / 16 == 0xC))
            && (d.compatible ==>
                  && d.appSpace == 32768 - 128 * pages
                  && (d.vector <==> table[1] as int % 128 > 0 || (version <= 7 * 8 + 7 && table[4] / 4 % 4 != 0))
                  && d.vectorNum == table[1] as int % 128)
    ensures !Evaluate(BootInfo(20, 16, table, tableRead)).compatible
  {
    hide SyncBytes;
    hide McuId;
    hide ReadsFlash;
    hide WritesWithoutErase;
    SyncRoundTrip(mcu, features);
    WordParts(table[3], table[2]);
    CapabilityBits(table[4]);
  }

  lemma WordParts(hi: byte, lo: byte)
    ensures Word(hi, lo) == 0x9508 <==> hi == 0x95 && lo == 0x08
    ensures Word(hi, lo) / 0x1000 == hi / 16
  {
  }

  lemma CapabilityBits(cap: byte)
    ensures Bit(cap, 2) || Bit(cap, 3) <==> cap / 4 % 4 != 0
  {
    hide Bit;
    BitsTwoAndThree(cap);
    TwoBits(cap / 4);
    assert cap / 4 / 2 == cap / 8;
  }

  lemma TwoBits(q: nat)
    ensures q % 4 != 0 <==> q % 2 == 1 || q / 2 % 2 == 1
  {
    assert q % 4 == q % 2 + 2 * (q / 2 % 2);
  }

  lemma BitsTwoAndThree(v: nat)
    ensures (Bit(v, 2) <==> v / 4 % 2 == 1) && (Bit(v, 3) <==> v / 8 % 2 == 1)
  {
    assert Bit(v, 2) == Bit(v / 2, 1) && Bit(v / 2, 1) == Bit(v / 2 / 2, 0);
    assert Bit(v, 3) == Bit(v / 2, 2) && Bit(v / 2, 2) == Bit(v / 2 / 2, 1);
    assert Bit(v / 2 / 2, 1) == Bit(v / 2 / 2 / 2, 0);
    assert v / 2 / 2 == v / 4 && v / 2 / 2 / 2 == v / 8;
  }

  // ----- The image -----

  function Pages(size: nat): nat { (size + PAGE_SIZE - 1) / PAGE_SIZE }

  // The image with 0xFF behind it up to a whole number of pages
  function Padded(image: seq<byte>): seq<byte> {
    seq(Pages(|image|) * PAGE_SIZE, a requires 0 <= a => if a < |image| then image[a] else ERASED)
  }

  // Padding adds 0xFF only, and no more than it takes to fill the last page.
  lemma PaddedIs(image: seq<byte>)
    ensures |Padded(image)| % PAGE_SIZE == 0 && |image| <= |Padded(image)| < |image| + PAGE_SIZE
    ensures image <= Padded(image) && forall a :: |image| <= a < |Padded(image)| ==> Padded(image)[a] == 255
  {
    var size := |image| + PAGE_SIZE - 1;
    assert size == size / PAGE_SIZE * PAGE_SIZE + size % PAGE_SIZE;
    DivUnique(Pages(|image|) * PAGE_SIZE, PAGE_SIZE, Pages(|image|), 0);
  }

  type Flash = s: seq<byte> | |s| == FLASH_SIZE witness seq(FLASH_SIZE, i => 0)

  // What becomes of one page write: whether the page lands, and whether the write is answered
  datatype PageOutcome = PageOutcome(done: bool, answered: bool)

  const PAGE_LOST := PageOutcome(false, false)

  // The flash once a page of the image has landed on it
  function PageLanded(flash: Flash, image: seq<byte>, page: nat): Flash
    requires (page + 1) * PAGE_SIZE <= |image| <= FLASH_SIZE
  {
    flash[..page * PAGE_SIZE] + image[page * PAGE_SIZE..(page + 1) * PAGE_SIZE] + flash[(page + 1) * PAGE_SIZE..]
  }

  // The flash once page writes number from, from + 1, ... for the first m pages have been made, and some of the
  // pages have landed
  function Landed(flash: Flash, image: seq<byte>, outcomes: nat -> PageOutcome, from: nat, m: nat): Flash
    requires m * PAGE_SIZE <= |image| <= FLASH_SIZE
  {
    if m == 0 then flash
    else
      var before := Landed(flash, image, outcomes, from, m - 1);
      if outcomes(from + m - 1).done then PageLanded(before, image, m - 1) else before
  }

  // The reset instruction leads to the bootloader
  predicate Recoverable(chip: Flash, appSpace: nat) {
    ResetIsJump(chip) && ResetTarget(chip, FLASH_SIZE) == appSpace
  }

  // Nothing at or above `appSpace` differs
  predicate SameBoot(chip: Flash, before: Flash, appSpace: nat)
    requires appSpace <= FLASH_SIZE
  {
    chip[appSpace..] == before[appSpace..]
  }

  // What is written: the padded image, patched if the bootloader is reached through the reset vector
  function ToWrite(image: seq<byte>, d: Device): (PatchError, seq<byte>) {
    if d.vector then Patch(Padded(image), d.appSpace, d.vectorNum, FLASH_SIZE) else (NoError, Padded(image))
  }

  // Each address holds the image's byte if its page is among the first m and has landed, and what it held before
  // otherwise.
  lemma {:induction false} LandedAt(flash: Flash, image: seq<byte>, outcomes: nat -> PageOutcome, from: nat, m: nat,
                                    a: nat)
    requires m * PAGE_SIZE <= |image| <= FLASH_SIZE && a < FLASH_SIZE
    ensures Landed(flash, image, outcomes, from, m)[a] ==
            if a / PAGE_SIZE < m && outcomes(from + a / PAGE_SIZE).done then image[a] else flash[a]
  {
    if m > 0 {
      LandedAt(flash, image, outcomes, from, m - 1, a);
      DivUnique(a, PAGE_SIZE, m - 1, a % PAGE_SIZE);
    }
  }

  // The reset only depends on the first page.
  lemma ResetOfPages(chip: Flash, image: seq<byte>, outcomes: nat -> PageOutcome, from: nat, m: nat)
    requires m * PAGE_SIZE <= |image| <= FLASH_SIZE
    ensures var reset: seq<byte> := if m > 0 && outcomes(from).done then image else chip;
            && |reset| >= 4
            && ResetIsJump(Landed(chip, image, outcomes, from, m)) == ResetIsJump(reset)
            && ResetTarget(Landed(chip, image, outcomes, from, m), FLASH_SIZE) == ResetTarget(reset, FLASH_SIZE)
  {
    hide RjmpTarget;
    hide Landed;
    LandedAt(chip, image, outcomes, from, m, 0);
    LandedAt(chip, image, outcomes, from, m, 1);
    LandedAt(chip, image, outcomes, from, m, 2);
    LandedAt(chip, image, outcomes, from, m, 3);
  }

  // The bytes from the end of the image on are what they were.
  lemma LandedBelow(chip: Flash, image: seq<byte>, outcomes: nat -> PageOutcome, from: nat, m: nat, space: nat)
    requires m * PAGE_SIZE <= |image| <= space <= FLASH_SIZE
    ensures SameBoot(Landed(chip, image, outcomes, from, m), chip, space)
  {
    hide Landed;
    forall a | space <= a < FLASH_SIZE
      ensures Landed(chip, image, outcomes, from, m)[a] == chip[a]
    {
      LandedAt(chip, image, outcomes, from, m, a);
    }
  }

  lemma PatchKeepsSize(image: seq<byte>, d: Device)
    ensures |ToWrite(image, d).1| == |Padded(image)|
  {
  }

  // An interrupted flash is recoverable: however many pages have been written, and whichever of them have landed,
  // the bootloader is untouched. If the first page has landed, the reset leads to it exactly when the saved vector
  // is not the reset itself or the image already led there; if not, exactly when it did before.
  lemma InterruptedIsRecoverable(chip: Flash, image: seq<byte>, b: Identity, outcomes: nat -> PageOutcome,
                                 from: nat, m: nat)
    requires Evaluate(b).compatible && Evaluate(b).vector
    requires ToWrite(image, Evaluate(b)).0.NoError? && |Padded(image)| <= Evaluate(b).appSpace && m <= Pages(|image|)
    ensures |ToWrite(image, Evaluate(b)).1| == Pages(|image|) * PAGE_SIZE
    ensures var d := Evaluate(b);
            var after := Landed(chip, ToWrite(image, d).1, outcomes, from, m);
            && SameBoot(after, chip, d.appSpace)
            && (Recoverable(after, d.appSpace) <==>
                  if m > 0 && outcomes(from).done
                  then d.vectorNum >= 1 || ResetTarget(Padded(image), FLASH_SIZE) == d.appSpace
                  else Recoverable(chip, d.appSpace))
  {
    hide Patch;
    hide ResetTarget;
    hide ResetIsJump;
    hide Evaluate;
    hide Landed;
    var d := Evaluate(b);
    var out := ToWrite(image, d).1;
    EvaluateReachable(b);
    PatchKeepsSize(image, d);
    PatchReachesBootloader(Padded(image), d.appSpace, d.vectorNum);
    ResetOfPages(chip, out, outcomes, from, m);
    LandedBelow(chip, out, outcomes, from, m, d.appSpace);
  }

  // A two-page urboot 8.2 with vector 25, as it would answer a sync
  const EXAMPLE_BOOT: Identity := BootInfo(32, 120, [2, 25, 0x00, 0xCF, 0, 0x42], true)

  lemma ExampleIsAccepted()
    ensures Evaluate(EXAMPLE_BOOT) == Device(true, true, true, false, 0x7F00, 25)
  {
    assert SyncInfo(32, 120) == 8279;
    assert Bit(4, 2) && !Bit(4, 3);
  }

  // On such a switch every firmware that resets with a jmp to 0x1A6 and fits can be interrupted anywhere once its
  // first page has landed.
  lemma ExampleFlash(chip: Flash, image: seq<byte>, outcomes: nat -> PageOutcome, from: nat, m: nat)
    requires 0x1A6 < |image| <= 0x7F00 && image[..4] == [0x0C, 0x94, 0xD3, 0x00]
    requires 1 <= m <= Pages(|image|) && outcomes(from).done
    ensures |ToWrite(image, Evaluate(EXAMPLE_BOOT)).1| == Pages(|image|) * PAGE_SIZE <= 0x7F00
    ensures Recoverable(Landed(chip, ToWrite(image, Evaluate(EXAMPLE_BOOT)).1, outcomes, from, m), 0x7F00)
  {
    hide Evaluate;
    hide Patch;
    hide Recoverable;
    hide Landed;
    ExampleIsAccepted();
    assert Padded(image)[..4] == image[..4];
    KnownSwitch(Padded(image));
    InterruptedIsRecoverable(chip, image, EXAMPLE_BOOT, outcomes, from, m);
  }

  // ----- The flash task -----

  // The chip, reached through its bootloader. What becomes of each page write, and whether each read is
  // answered, is the chip's own affair. `trace` keeps its content after each page write.
  class Chip {
    const flash: array<byte>
    const outcomes: nat -> PageOutcome
    const answers: nat -> bool
    var pageWrites: nat
    var pageReads: nat
    ghost var trace: seq<seq<byte>>

    ghost predicate Valid()
      reads this
    {
      flash.Length == FLASH_SIZE
    }

    constructor (flash: array<byte>, outcomes: nat -> PageOutcome, answers: nat -> bool)
      requires flash.Length == FLASH_SIZE
      ensures Valid() && this.flash == flash && this.outcomes == outcomes && this.answers == answers
      ensures pageWrites == pageReads == 0 && trace == []
    {
      this.flash, this.outcomes, this.answers := flash, outcomes, answers;
      pageWrites, pageReads, trace := 0, 0, [];
    }

    method WritePage(image: array<byte>, page: nat) returns (ok: bool)
      requires Valid() && (page + 1) * PAGE_SIZE <= image.Length <= FLASH_SIZE && image != flash
      modifies this`pageWrites, this`trace, flash
      ensures pageWrites == old(pageWrites) + 1 && ok == outcomes(old(pageWrites)).answered
      ensures flash[..] == if outcomes(old(pageWrites)).done then PageLanded(old(flash[..]), image[..], page)
                           else old(flash[..])
      ensures trace == old(trace) + [flash[..]]
    {
      var outcome := outcomes(pageWrites);
      pageWrites := pageWrites + 1;
      if outcome.done {
        forall a | page * PAGE_SIZE <= a < (page + 1) * PAGE_SIZE {
          flash[a] := image[a];
        }
      }
      trace := trace + [flash[..]];
      ok := outcome.answered;
    }

    method ReadPage(page: nat) returns (answered: bool, bytes: seq<byte>)
      requires Valid() && (page + 1) * PAGE_SIZE <= FLASH_SIZE
      modifies this`pageReads
      ensures pageReads == old(pageReads) + 1 && answered == answers(old(pageReads))
      ensures answered ==> bytes == flash[page * PAGE_SIZE..(page + 1) * PAGE_SIZE]
    {
      answered := answers(pageReads);
      pageReads := pageReads + 1;
      bytes := flash[page * PAGE_SIZE..(page + 1) * PAGE_SIZE];
    }
  }

  // Page writes number from, from + 1, ... are all answered
  predicate AllAnswered(outcomes: nat -> PageOutcome, from: nat, count: nat) {
    forall i :: from <= i < from + count ==> outcomes(i).answered
  }

  // The pages in order, up to the first that is not answered. At every moment the chip holds what it did, with
  // those of the pages written so far that have landed.
  method WritePages(chip: Chip, image: array<byte>, pages: nat) returns (ok: bool)
    requires chip.Valid() && pages * PAGE_SIZE == image.Length <= FLASH_SIZE && image != chip.flash && chip.trace == []
    modifies chip`pageWrites, chip`trace, chip.flash
    ensures ok <==> AllAnswered(chip.outcomes, old(chip.pageWrites), pages)
    ensures |chip.trace| == chip.pageWrites - old(chip.pageWrites) <= pages
    ensures forall i :: 0 <= i < |chip.trace| ==>
              chip.trace[i] == Landed(old(chip.flash[..]), image[..], chip.outcomes, old(chip.pageWrites), i + 1)
    ensures chip.flash[..] == Landed(old(chip.flash[..]), image[..], chip.outcomes, old(chip.pageWrites), |chip.trace|)
    ensures ok ==> |chip.trace| == pages
    ensures !ok ==>
              var last := chip.pageWrites - 1;
              && last >= old(chip.pageWrites)
              && AllAnswered(chip.outcomes, old(chip.pageWrites), last - old(chip.pageWrites))
              && !chip.outcomes(last).answered
  {
    hide PageLanded;
    for i := 0 to pages
      invariant chip.pageWrites == old(chip.pageWrites) + i && AllAnswered(chip.outcomes, old(chip.pageWrites), i)
      invariant |chip.trace| == i
      invariant forall j :: 0 <= j < i ==>
                  chip.trace[j] == Landed(old(chip.flash[..]), image[..], chip.outcomes, old(chip.pageWrites), j + 1)
      invariant chip.flash[..] == Landed(old(chip.flash[..]), image[..], chip.outcomes, old(chip.pageWrites), i)
    {
      ok := chip.WritePage(image, i);
      if !ok {
        return;
      }
    }
    ok := true;
  }

  // Reads each page back, up to the first that cannot be read or differs. Passing means the chip holds the
  // image.
  method VerifyPages(chip: Chip, image: array<byte>, pages: nat) returns (ok: bool)
    requires chip.Valid() && pages * PAGE_SIZE == image.Length <= FLASH_SIZE
    modifies chip`pageReads
    ensures ok <==> AllWork(chip.answers, old(chip.pageReads), pages) && chip.flash[..image.Length] == image[..]
  {
    for i := 0 to pages
      invariant chip.pageReads == old(chip.pageReads) + i && AllWork(chip.answers, old(chip.pageReads), i)
      invariant chip.flash[..i * PAGE_SIZE] == image[..i * PAGE_SIZE]
    {
      var answered, page := chip.ReadPage(i);
      if !answered {
        return false;
      }
      PageOfPrefix(chip.flash[..], image[..], i, i + 1);
      if page != image[i * PAGE_SIZE..(i + 1) * PAGE_SIZE] {
        return false;
      }
      SamePages(chip.flash[..], image[..], i);
    }
    ok := true;
  }

  lemma PageOfPrefix(chip: seq<byte>, image: seq<byte>, i: nat, j: nat)
    requires i <= j && j * PAGE_SIZE <= |image| <= |chip|
    ensures chip[..|image|] == image ==> chip[i * PAGE_SIZE..j * PAGE_SIZE] == image[i * PAGE_SIZE..j * PAGE_SIZE]
  {
    assert chip[..|image|][i * PAGE_SIZE..j * PAGE_SIZE] == chip[i * PAGE_SIZE..j * PAGE_SIZE];
  }

  lemma SamePages(chip: seq<byte>, image: seq<byte>, i: nat)
    requires (i + 1) * PAGE_SIZE <= |image| <= |chip|
    requires chip[..i * PAGE_SIZE] == image[..i * PAGE_SIZE]
    requires chip[i * PAGE_SIZE..(i + 1) * PAGE_SIZE] == image[i * PAGE_SIZE..(i + 1) * PAGE_SIZE]
    ensures chip[..(i + 1) * PAGE_SIZE] == image[..(i + 1) * PAGE_SIZE]
  {
  }

  // What entering the bootloader gives
  datatype Session = NoAnswer | Entered(boot: Identity)

  datatype FlashResult = NotEntered | OtherBootloader | DoesNotFit | PatchFailed(error: PatchError) | WriteFailed
                       | VerifyFailed | Flashed

  // Why nothing is written, if so: the bootloader does not answer or is not the one checked, the padded image
  // does not fit below it, or the patch fails
  function Refusal(staged: seq<byte>, d: Device, checked: Identity, session: Session): Option<FlashResult> {
    if session.NoAnswer? then Some(NotEntered)
    else if !SameBootloader(session.boot, checked) then Some(OtherBootloader)
    else if |Padded(staged)| > d.appSpace then Some(DoesNotFit)
    else if !ToWrite(staged, d).0.NoError? then Some(PatchFailed(ToWrite(staged, d).0))
    else None
  }

  // Nothing is written if and only if the bootloader does not answer, is not the one that was checked, the firmware is
  // longer than the space below it, or a patch that is needed fails.
  lemma RefusalExact(staged: seq<byte>, b: Identity, verified: bool, session: Session)
    requires Evaluate(b).compatible
    ensures var d := Evaluate(b).(vectorVerified := verified);
            var space, r := FLASH_SIZE - 128 * (b.table[0] as int % 128), Refusal(staged, d, b, session);
            && (r == Some(NotEntered) <==> session.NoAnswer?)
            && (r == Some(OtherBootloader) <==> session.Entered? && session.boot != b)
            && (r == Some(DoesNotFit) <==> session == Entered(b) && |staged| > space)
            && (r.None? <==>
                  && session == Entered(b) && |staged| <= space
                  && (d.vector ==> Patch(Padded(staged), space, d.vectorNum, FLASH_SIZE).0.NoError?))
  {
    hide Patch;
    EvaluateReachable(b);
    hide Evaluate;
    var space := FLASH_SIZE - 128 * (b.table[0] as int % 128);
    DivUnique(space, 128, 256 - b.table[0] as int % 128, 0);
    PagesFit(|staged|, 256 - b.table[0] as int % 128);
  }

  lemma PagesFit(size: nat, pages: nat)
    ensures Pages(size) <= pages <==> size <= pages * PAGE_SIZE
  {
  }

  // The chip holds page i of the image once its write has been made: the page lands, or was there before
  predicate PageHeld(flash: Flash, image: seq<byte>, outcomes: nat -> PageOutcome, from: nat, i: nat)
    requires (i + 1) * PAGE_SIZE <= |image| <= FLASH_SIZE
  {
    || outcomes(from + i).done
    || flash[i * PAGE_SIZE..(i + 1) * PAGE_SIZE] == image[i * PAGE_SIZE..(i + 1) * PAGE_SIZE]
  }

  predicate AllHeld(flash: Flash, image: seq<byte>, outcomes: nat -> PageOutcome, from: nat, pages: nat)
    requires pages * PAGE_SIZE <= |image| <= FLASH_SIZE
  {
    forall i :: 0 <= i < pages ==> PageHeld(flash, image, outcomes, from, i)
  }

  // After a write of every page the chip holds the image exactly when each page landed or was there before.
  lemma HeldIsImage(flash: Flash, image: seq<byte>, outcomes: nat -> PageOutcome, from: nat, pages: nat)
    requires pages * PAGE_SIZE == |image| <= FLASH_SIZE
    ensures Landed(flash, image, outcomes, from, pages)[..|image|] == image
            <==> AllHeld(flash, image, outcomes, from, pages)
  {
    hide Landed;
    var after := Landed(flash, image, outcomes, from, pages);
    if after[..|image|] == image {
      forall i | 0 <= i < pages
        ensures PageHeld(flash, image, outcomes, from, i)
      {
        if !outcomes(from + i).done {
          forall a | i * PAGE_SIZE <= a < (i + 1) * PAGE_SIZE
            ensures flash[a] == image[a]
          {
            DivUnique(a, PAGE_SIZE, i, a - i * PAGE_SIZE);
            LandedAt(flash, image, outcomes, from, pages, a);
            assert after[a] == after[..|image|][a];
          }
        }
      }
    }
    if AllHeld(flash, image, outcomes, from, pages) {
      forall a | 0 <= a < |image|
        ensures after[a] == image[a]
      {
        LandedAt(flash, image, outcomes, from, pages, a);
        HeldAt(flash, image, outcomes, from, pages, a);
      }
    }
  }

  lemma HeldAt(flash: Flash, image: seq<byte>, outcomes: nat -> PageOutcome, from: nat, pages: nat, a: nat)
    requires pages * PAGE_SIZE == |image| <= FLASH_SIZE && a < |image| && AllHeld(flash, image, outcomes, from, pages)
    ensures a / PAGE_SIZE < pages && (outcomes(from + a / PAGE_SIZE).done || flash[a] == image[a])
  {
    var i := a / PAGE_SIZE;
    assert a == i * PAGE_SIZE + a % PAGE_SIZE;
    assert PageHeld(flash, image, outcomes, from, i);
    if !outcomes(from + i).done {
      assert flash[a] == flash[i * PAGE_SIZE..(i + 1) * PAGE_SIZE][a % PAGE_SIZE];
      assert image[a] == image[i * PAGE_SIZE..(i + 1) * PAGE_SIZE][a % PAGE_SIZE];
    }
  }

  // Refused exactly when there is a reason to, and then nothing is written. Otherwise the chip holds at every
  // moment what it did, with those of the pages written so far that have landed; the write fails exactly when some
  // page is not answered; the verification exactly when some read is not, or some page neither landed nor was there
  // before; and a flash that ends well has the whole image on the chip.
  method FlashTask(chip: Chip, staged: seq<byte>, d: Device, checked: Identity, session: Session)
    returns (r: FlashResult)
    requires chip.Valid() && chip.trace == [] && d.appSpace <= FLASH_SIZE
    modifies chip, chip.flash
    ensures Refusal(staged, d, checked, session).Some? ==>
              && r == Refusal(staged, d, checked, session).value && chip.trace == []
              && chip.flash[..] == old(chip.flash[..])
    ensures Refusal(staged, d, checked, session).None? ==>
              var image, pages, before := ToWrite(staged, d).1, Pages(|staged|), old(chip.flash[..]);
              && |image| == pages * PAGE_SIZE == |Padded(staged)| <= d.appSpace && |chip.trace| <= pages
              && (r.WriteFailed? <==> !AllAnswered(chip.outcomes, old(chip.pageWrites), pages))
              && (r.Flashed? <==>
                    && AllAnswered(chip.outcomes, old(chip.pageWrites), pages)
                    && AllHeld(before, image, chip.outcomes, old(chip.pageWrites), pages)
                    && AllWork(chip.answers, old(chip.pageReads), pages))
              && (r.WriteFailed? || r.VerifyFailed? || r.Flashed?)
              && (forall i :: 0 <= i < |chip.trace| ==>
                    chip.trace[i] == Landed(before, image, chip.outcomes, old(chip.pageWrites), i + 1))
              && chip.flash[..] == Landed(before, image, chip.outcomes, old(chip.pageWrites), |chip.trace|)
              && (!r.WriteFailed? ==> |chip.trace| == pages)
              && (r.Flashed? ==> chip.flash[..] == image + before[|image|..])
  {
    hide Landed;
    hide AllHeld;
    hide Patch;
    hide AllAnswered;
    hide AllWork;
    if session.NoAnswer? {
      return NotEntered;
    }
    var pages := Pages(|staged|);
    var image := new byte[pages * PAGE_SIZE](a requires 0 <= a => if a < |staged| then staged[a] else ERASED);
    assert image[..] == Padded(staged);
    if !SameBootloader(session.boot, checked) {
      return OtherBootloader;
    }
    if image.Length > d.appSpace {
      return DoesNotFit;
    }
    if d.vector {
      var error, rjmp, entry := PatchVectors(image, d.appSpace, d.vectorNum, FLASH_SIZE);
      if !error.NoError? {
        return PatchFailed(error);
      }
    }
    assert image[..] == ToWrite(staged, d).1;
    var ok := WritePages(chip, image, pages);
    if !ok {
      return WriteFailed;
    }
    HeldIsImage(old(chip.flash[..]), image[..], chip.outcomes, old(chip.pageWrites), pages);
    LandedBelow(old(chip.flash[..]), image[..], chip.outcomes, old(chip.pageWrites), pages, image.Length);
    ok := VerifyPages(chip, image, pages);
    if ok {
      assert chip.flash[..] == chip.flash[..image.Length] + chip.flash[..][image.Length..];
    }
    return if ok then Flashed else VerifyFailed;
  }
}
