// What the vector-bootloader patch promises, and exactly when.
module PatchTheorems {
  import opened Bytes
  import opened ResetVectors

  // The addresses a reset rjmp can lead to on this chip
  predicate Reachable(blstart: int) {
    blstart % 2 == 0 && (0 <= blstart < 4096 || FLASH_SIZE - 4096 <= blstart < FLASH_SIZE)
  }

  // When the patch succeeds, and that a refused one leaves the image as it was, except when only the last
  // check fails; that check fails exactly when every other one passes for a bootloader that no reset rjmp
  // reaches.
  lemma PatchRefusal(image: seq<byte>, blstart: int, vectorNum: nat)
    ensures var (error, out) := Patch(image, blstart, vectorNum, FLASH_SIZE);
            var jumps := |image| >= vectorNum * VEC_SZ + VEC_SZ && ResetIsJump(image);
            var inRange := jumps && vectorNum * VEC_SZ <= ResetTarget(image, FLASH_SIZE) < |image|;
            && (error.NoError? <==>
                  jumps && (ResetTarget(image, FLASH_SIZE) == blstart || (inRange && Reachable(blstart))))
            && (error.SelfCheckFailed? <==> inRange && ResetTarget(image, FLASH_SIZE) != blstart && !Reachable(blstart))
            && (!error.NoError? && !error.SelfCheckFailed? ==> out == image)
  {
    hide RjmpTarget;
    hide RjmpToBootloader;
    RjmpReachExact(blstart);
  }

  lemma RjmpTargetEven(op: nat)
    ensures var t := RjmpTarget(op, FLASH_SIZE); t % 2 == 0 && 0 <= t < FLASH_SIZE
  {
    hide DistWrap;
    hide Raise;
    hide Lower;
    var dist := RjmpDist(op) + 2;
    Wrapped(dist, FLASH_SIZE);
    assert dist % 2 == 0 && dist == 8192 * (dist / 8192) + dist % 8192;
  }

  lemma ResetTargetEven(image: seq<byte>)
    requires |image| >= 4 && ResetIsJump(image)
    ensures var t := ResetTarget(image, FLASH_SIZE); t % 2 == 0 && 0 <= t < 0x80_0000
  {
    hide RjmpTarget;
    hide IsJmp;
    hide IsRjmp;
    hide Word;
    RjmpTargetEven(WordAt(image, 0));
    WordBytes(image[1], image[0]);
    WordBytes(image[3], image[2]);
  }

  lemma RewrittenAt(image: seq<byte>, rjmp: nat, vec: nat, entry: nat, a: nat)
    requires vec + 4 <= |image| && rjmp < 0x1_0000 && a < |image|
    ensures |Rewritten(image, rjmp, vec, entry)| == |image|
    ensures Rewritten(image, rjmp, vec, entry)[a] ==
            if vec <= a < vec + 4 then JmpOpcode(entry)[a - vec]
            else if a == 0 then rjmp % 256 else if a == 1 then rjmp / 256 else image[a]
  {
  }

  lemma RjmpIsWord(blstart: int)
    ensures RjmpToBootloader(blstart, FLASH_SIZE) < 0x1_0000
    ensures IsRjmp(RjmpToBootloader(blstart, FLASH_SIZE)) && !IsJmp(RjmpToBootloader(blstart, FLASH_SIZE))
  {
  }

  // The vector the patch writes holds a jmp to where the reset led before.
  lemma PatchKeepsEntry(image: seq<byte>, blstart: int, vectorNum: nat)
    requires Patch(image, blstart, vectorNum, FLASH_SIZE).0.NoError?
    requires ResetTarget(image, FLASH_SIZE) != blstart
    ensures var out, vec := Patch(image, blstart, vectorNum, FLASH_SIZE).1, vectorNum * VEC_SZ;
            && |out| == |image|
            && IsJmp(WordAt(out, vec)) && JmpTarget(out, vec) == ResetTarget(image, FLASH_SIZE)
            && forall a :: 2 <= a < |image| && !(vec <= a < vec + 4) ==> out[a] == image[a]
  {
    hide RjmpTarget;
    hide RjmpToBootloader;
    hide JmpOpcode;
    hide JmpTarget;
    hide Rewritten;
    hide IsJmp;
    var out, vec := Patch(image, blstart, vectorNum, FLASH_SIZE).1, vectorNum * VEC_SZ;
    var entry, rjmp := ResetTarget(image, FLASH_SIZE), RjmpToBootloader(blstart, FLASH_SIZE);
    RjmpIsWord(blstart);
    ResetTargetEven(image);
    forall a | 0 <= a < |image|
      ensures |out| == |image|
      ensures out[a] == if vec <= a < vec + 4 then JmpOpcode(entry)[a - vec]
                        else if a == 0 then rjmp % 256 else if a == 1 then rjmp / 256 else image[a]
    {
      RewrittenAt(image, rjmp, vec, entry, a);
    }
    JmpRoundTrip(entry, out, vec);
  }

  // A patch that succeeds for a reachable bootloader makes the reset lead to it exactly when the
  // vector it writes is not the reset itself, or the reset already led there. (For vector 0 the jmp to
  // the application is written over the new reset word, and the last check does not notice.)
  lemma PatchReachesBootloader(image: seq<byte>, blstart: int, vectorNum: nat)
    requires Reachable(blstart) && Patch(image, blstart, vectorNum, FLASH_SIZE).0.NoError?
    ensures var out := Patch(image, blstart, vectorNum, FLASH_SIZE).1;
            && |out| == |image| && ResetIsJump(out)
            && (ResetTarget(out, FLASH_SIZE) == blstart
                <==> vectorNum >= 1 || ResetTarget(image, FLASH_SIZE) == blstart)
  {
    hide RjmpTarget;
    hide RjmpToBootloader;
    hide JmpOpcode;
    hide JmpTarget;
    hide Rewritten;
    hide IsJmp;
    hide IsRjmp;
    hide Word;
    var out, vec := Patch(image, blstart, vectorNum, FLASH_SIZE).1, vectorNum * VEC_SZ;
    if ResetTarget(image, FLASH_SIZE) != blstart {
      PatchKeepsEntry(image, blstart, vectorNum);
      if vectorNum >= 1 {
        PatchedResetWord(image, blstart, vectorNum);
        RjmpReachExact(blstart);
      }
    }
  }

  // With a vector other than the reset, the reset word becomes the rjmp.
  lemma PatchedResetWord(image: seq<byte>, blstart: int, vectorNum: nat)
    requires Patch(image, blstart, vectorNum, FLASH_SIZE).0.NoError?
    requires ResetTarget(image, FLASH_SIZE) != blstart && vectorNum >= 1
    ensures var word := WordAt(Patch(image, blstart, vectorNum, FLASH_SIZE).1, 0);
            word == RjmpToBootloader(blstart, FLASH_SIZE) && IsRjmp(word) && !IsJmp(word)
  {
    hide RjmpTarget;
    hide RjmpToBootloader;
    hide JmpOpcode;
    hide JmpTarget;
    hide Rewritten;
    hide IsJmp;
    hide IsRjmp;
    var rjmp := RjmpToBootloader(blstart, FLASH_SIZE);
    RjmpIsWord(blstart);
    RewrittenAt(image, rjmp, vectorNum * VEC_SZ, ResetTarget(image, FLASH_SIZE), 0);
    RewrittenAt(image, rjmp, vectorNum * VEC_SZ, ResetTarget(image, FLASH_SIZE), 1);
    WordJoins(rjmp);
  }

  // An image whose patch is accepted although it loses the bootloader: vector 0 is the reset itself.
  lemma Vector0LosesBootloader()
    ensures var image := [0x0C, 0x94, 0xD3, 0x00] + seq(508, i => 0xFF as byte);
            var (error, out) := Patch(image, 0x7F00, 0, FLASH_SIZE);
            error.NoError? && |out| >= 4 && ResetTarget(out, FLASH_SIZE) == 0x1A6
  {
    var image := [0x0C, 0x94, 0xD3, 0x00] + seq(508, i => 0xFF as byte);
    assert WordAt(image, 0) == 0x940C && WordAt(image, 2) == 0xD3;
    assert ResetTarget(image, FLASH_SIZE) == 0x1A6;
    RjmpReachExact(0x7F00);
    PatchKeepsEntry(image, 0x7F00, 0);
  }

  lemma KnownReset(image: seq<byte>)
    requires 4 <= |image| && image[..4] == [0x0C, 0x94, 0xD3, 0x00]
    ensures ResetIsJump(image) && ResetTarget(image, FLASH_SIZE) == 0x1A6
    ensures image[2] == 0xD3 && image[3] == 0x00
  {
    assert image[0] == image[..4][0] && image[1] == image[..4][1];
    assert image[2] == image[..4][2] && image[3] == image[..4][3];
  }

  lemma KnownRjmp()
    ensures RjmpToBootloader(0x7F00, FLASH_SIZE) == 0xCF7F
  {
  }

  // The documented case: any firmware that resets with a jmp to 0x1A6, patched for the bootloader at 0x7F00 and
  // vector 25, starts with 7F CF D3 00 and has its entry in that vector.
  lemma KnownSwitch(image: seq<byte>)
    requires 0x1A6 < |image| && image[..4] == [0x0C, 0x94, 0xD3, 0x00]
    ensures var (error, out) := Patch(image, 0x7F00, 25, FLASH_SIZE);
            && error.NoError? && |out| == |image|
            && out[..4] == [0x7F, 0xCF, 0xD3, 0x00] && IsJmp(WordAt(out, 100)) && JmpTarget(out, 100) == 0x1A6
  {
    hide Patch;
    hide RjmpToBootloader;
    hide JmpTarget;
    hide IsJmp;
    hide IsRjmp;
    hide ResetIsJump;
    hide ResetTarget;
    KnownReset(image);
    KnownRjmp();
    PatchRefusal(image, 0x7F00, 25);
    PatchKeepsEntry(image, 0x7F00, 25);
    PatchedResetWord(image, 0x7F00, 25);
    var out := Patch(image, 0x7F00, 25, FLASH_SIZE).1;
    WordBytes(out[1], out[0]);
  }
}
