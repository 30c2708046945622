// AVR reset-vector arithmetic and the vector-bootloader patch (src/core/svs_vectors.h). The masks and
// shifts of the C code are written as quotients and remainders by powers of two.
module ResetVectors {
  import opened Bytes

  const VEC_SZ := 4
  const FLASH_SIZE := 32768

  // ----- Opcodes -----

  // (op & 0xF000) == 0xC000
  predicate IsRjmp(op: nat) { op / 4096 == 0xC }

  // (op & 0xFE0E) == 0x940C
  predicate IsJmp(op: nat) { op / 512 == 0x4A && op / 2 % 8 == 6 }

  // The 16-bit word at an address
  function WordAt(image: seq<byte>, a: nat): nat
    requires a + 2 <= |image|
  {
    Word(image[a + 1], image[a])
  }

  predicate PowerOfTwo(n: nat) {
    n == 1 || (n > 0 && n % 2 == 0 && PowerOfTwo(n / 2))
  }

  // A distance modulo a power of two, as a signed one
  function Signed(dist: int, size: nat): int
    requires size > 0
  {
    if !PowerOfTwo(size) then dist else if dist % size >= size / 2 then dist % size - size else dist % size
  }

  function DistWrap(dist: int, flashsize: nat): int
    requires flashsize > 0
  {
    if flashsize > 8182 then Signed(dist, 8192) else Signed(dist, flashsize)
  }

  // Adding the flash size until the address is not negative
  function Raise(addr: int, flashsize: nat): int
    requires flashsize > 0
    decreases -addr
  {
    if addr < 0 then Raise(addr + flashsize, flashsize) else addr
  }

  // Subtracting the flash size until the address is not above it
  function Lower(addr: int, flashsize: nat): int
    requires flashsize > 0
    decreases addr
  {
    if addr > flashsize then Lower(addr - flashsize, flashsize) else addr
  }

  // The low 12 bits as a signed word distance, in bytes
  function RjmpDist(op: nat): int {
    if op % 4096 >= 2048 then 2 * (op % 4096 - 4096) else 2 * (op % 4096)
  }

  // Byte address an rjmp at the reset jumps to
  function RjmpTarget(op: nat, flashsize: nat): int
    requires flashsize > 0
  {
    Lower(Raise(DistWrap(RjmpDist(op) + 2, flashsize), flashsize), flashsize)
  }

  method RjmpResetTarget(op: nat, flashsize: nat) returns (addr: int)
    requires flashsize > 0
    ensures addr == RjmpTarget(op, flashsize)
  {
    addr := DistWrap(RjmpDist(op) + 2, flashsize);
    ghost var start := addr;
    while addr < 0
      invariant Raise(addr, flashsize) == Raise(start, flashsize)
      decreases -addr
    {
      addr := addr + flashsize;
    }
    ghost var raised := addr;
    while addr > flashsize
      invariant Lower(addr, flashsize) == Lower(raised, flashsize)
      decreases addr
    {
      addr := addr - flashsize;
    }
  }

  // Byte address the 4-byte jmp at an address targets: 22 bits of word address, in two pieces
  function JmpTarget(image: seq<byte>, a: nat): nat
    requires a + 4 <= |image|
  {
    var op := WordAt(image, a);
    2 * (WordAt(image, a + 2) + 0x1_0000 * (op % 2) + 0x2_0000 * (op / 16 % 32))
  }

  // The 4 bytes of the jmp to a byte address
  function JmpOpcode(addr: nat): (r: seq<byte>)
    ensures |r| == 4
  {
    var op := 0x940C + 16 * (addr / 0x4_0000 % 32) + addr / 0x2_0000 % 2;
    var low := addr / 2 % 0x1_0000;
    [op % 256, op / 256, low % 256, low / 256]
  }

  // Integer division by two as C does it, toward zero
  function HalfTowardZero(x: int): int { if x >= 0 then x / 2 else -(-x / 2) }

  // The rjmp that reaches the bootloader
  function RjmpToBootloader(blstart: int, flashsize: nat): (op: nat) {
    0xC000 + HalfTowardZero(blstart - flashsize - 2) % 4096
  }

  // ----- The patch -----

  // Where the reset of an image leads, if it is a jump at all
  function ResetTarget(image: seq<byte>, flashsize: nat): int
    requires |image| >= 4 && flashsize > 0
  {
    if IsJmp(WordAt(image, 0)) then JmpTarget(image, 0)
    else if IsRjmp(WordAt(image, 0)) then RjmpTarget(WordAt(image, 0), flashsize)
    else -1
  }

  predicate ResetIsJump(image: seq<byte>)
    requires |image| >= 4
  {
    IsJmp(WordAt(image, 0)) || IsRjmp(WordAt(image, 0))
  }

  datatype PatchError = NoError | ImageTooSmall | NotAJump | EntryOutOfRange | SelfCheckFailed

  // The image with the reset word and the application's vector rewritten
  function Rewritten(image: seq<byte>, rjmp: nat, vec: nat, entry: nat): seq<byte>
    requires vec + 4 <= |image| && rjmp < 0x1_0000
  {
    var jmp := JmpOpcode(entry);
    image[0 := rjmp % 256][1 := rjmp / 256]
    [vec := jmp[0]][vec + 1 := jmp[1]][vec + 2 := jmp[2]][vec + 3 := jmp[3]]
  }

  // What the patch makes of an image, and its verdict
  function Patch(image: seq<byte>, blstart: int, vectorNum: nat, flashsize: nat): (PatchError, seq<byte>)
    requires flashsize > 0
  {
    var vec := vectorNum * VEC_SZ;
    if |image| < vec + VEC_SZ then (ImageTooSmall, image)
    else if !ResetIsJump(image) then (NotAJump, image)
    else
      var entry := ResetTarget(image, flashsize);
      var rjmp := RjmpToBootloader(blstart, flashsize);
      if entry == blstart then (NoError, image)
      else if entry < vec || entry >= |image| then (EntryOutOfRange, image)
      else (if RjmpTarget(rjmp, flashsize) != blstart then SelfCheckFailed else NoError,
            Rewritten(image, rjmp, vec, entry))
  }

  method PutU32(b: array<byte>, a: nat, v: seq<byte>)
    requires |v| == 4 && a + 4 <= b.Length
    modifies b
    ensures b[..] == old(b[..])[a := v[0]][a + 1 := v[1]][a + 2 := v[2]][a + 3 := v[3]]
  {
    b[a] := v[0];
    b[a + 1] := v[1];
    b[a + 2] := v[2];
    b[a + 3] := v[3];
  }

  method PatchVectors(image: array<byte>, blstart: int, vectorNum: nat, flashsize: nat)
    returns (error: PatchError, resetRjmp: nat, appStart: int)
    requires flashsize > 0
    modifies image
    ensures (error, image[..]) == Patch(old(image[..]), blstart, vectorNum, flashsize)
    ensures error.NoError? ==> appStart == ResetTarget(old(image[..]), flashsize)
    ensures error.NoError? ==> resetRjmp == RjmpToBootloader(blstart, flashsize)
  {
    resetRjmp, appStart := 0, 0;
    var vec := vectorNum * VEC_SZ;
    if image.Length < vec + VEC_SZ {
      return ImageTooSmall, resetRjmp, appStart;
    }
    var op := Word(image[1], image[0]);
    if IsJmp(op) {
      appStart := JmpTarget(image[..], 0);
    } else if IsRjmp(op) {
      appStart := RjmpResetTarget(op, flashsize);
    } else {
      return NotAJump, resetRjmp, appStart;
    }
    resetRjmp := RjmpToBootloader(blstart, flashsize);
    if appStart == blstart {
      return NoError, resetRjmp, appStart;
    }
    if appStart < vec || appStart >= image.Length {
      return EntryOutOfRange, resetRjmp, appStart;
    }
    image[0] := resetRjmp % 256;
    image[1] := resetRjmp / 256;
    PutU32(image, vec, JmpOpcode(appStart));
    var check := RjmpResetTarget(resetRjmp, flashsize);
    if check != blstart {
      return SelfCheckFailed, resetRjmp, appStart;
    }
    return NoError, resetRjmp, appStart;
  }

  // ----- Opcode arithmetic -----

  // The pieces of an address: its odd bit, 16 bits, 1 bit, 5 bits, and what a jmp cannot hold
  lemma AddressParts(addr: nat, odd: nat, low: nat, mid: nat, high: nat, over: nat)
    requires odd < 2 && low < 0x1_0000 && mid < 2 && high < 32
    requires addr == odd + 2 * low + 0x2_0000 * mid + 0x4_0000 * high + 0x80_0000 * over
    ensures addr / 2 % 0x1_0000 == low && addr / 0x2_0000 % 2 == mid && addr / 0x4_0000 % 32 == high
    ensures addr % 0x80_0000 / 2 * 2 == 2 * low + 0x2_0000 * mid + 0x4_0000 * high
  {
    DivUnique(addr, 2, low + 0x1_0000 * mid + 0x2_0000 * high + 0x40_0000 * over, odd);
    DivUnique(addr / 2, 0x1_0000, mid + 2 * high + 64 * over, low);
    DivUnique(addr, 0x2_0000, mid + 2 * high + 64 * over, odd + 2 * low);
    DivUnique(addr / 0x2_0000, 2, high + 32 * over, mid);
    DivUnique(addr, 0x4_0000, high + 32 * over, odd + 2 * low + 0x2_0000 * mid);
    DivUnique(addr / 0x4_0000, 32, over, high);
    DivUnique(addr, 0x80_0000, over, odd + 2 * low + 0x2_0000 * mid + 0x4_0000 * high);
    DivUnique(addr % 0x80_0000, 2, low + 0x1_0000 * mid + 0x2_0000 * high, odd);
  }

  // The first word of a jmp and the two pieces of the address in it
  lemma JmpWord(mid: nat, high: nat)
    requires mid < 2 && high < 32
    ensures var op := 0x940C + 16 * high + mid;
            IsJmp(op) && op % 2 == mid && op / 16 % 32 == high
  {
    var op := 0x940C + 16 * high + mid;
    DivUnique(op, 512, 0x4A, 12 + 16 * high + mid);
    DivUnique(op, 2, 0x4A06 + 8 * high, mid);
    DivUnique(op / 2, 8, 0x940 + high, 6);
    DivUnique(op, 16, 0x940 + high, 12 + mid);
    DivUnique(op / 16, 32, 0x4A, high);
  }

  lemma JmpWordUnique(op: nat)
    requires IsJmp(op)
    ensures op == 0x940C + 16 * (op / 16 % 32) + op % 2
  {
  }

  lemma SplitAddress(addr: nat)
    ensures addr % 0x80_0000 / 2 * 2 ==
            2 * (addr / 2 % 0x1_0000) + 0x2_0000 * (addr / 0x2_0000 % 2) + 0x4_0000 * (addr / 0x4_0000 % 32)
  {
    var w := addr / 2;
    var h := w / 0x1_0000;
    var t := h / 2;
    AddressParts(addr, addr % 2, w % 0x1_0000, h % 2, t % 32, t / 32);
  }

  lemma WordJoins(w: nat)
    requires w < 0x1_0000
    ensures Word(w / 256, w % 256) == w
  {
  }

  // A jmp opcode decodes to the address it was made for, less its odd bit and what 23 bits cannot hold.
  lemma JmpRoundTrip(addr: nat, image: seq<byte>, a: nat)
    requires a + 4 <= |image|
    requires image[a] == JmpOpcode(addr)[0] && image[a + 1] == JmpOpcode(addr)[1]
    requires image[a + 2] == JmpOpcode(addr)[2] && image[a + 3] == JmpOpcode(addr)[3]
    ensures IsJmp(WordAt(image, a))
    ensures JmpTarget(image, a) == addr % 0x80_0000 / 2 * 2
  {
    hide IsJmp;
    var low, mid, high := addr / 2 % 0x1_0000, addr / 0x2_0000 % 2, addr / 0x4_0000 % 32;
    JmpWord(mid, high);
    SplitAddress(addr);
    WordJoins(0x940C + 16 * high + mid);
    WordJoins(low);
  }

  // A jmp is the only encoding of its target.
  lemma JmpUnique(image: seq<byte>, a: nat)
    requires a + 4 <= |image| && IsJmp(WordAt(image, a))
    ensures JmpOpcode(JmpTarget(image, a)) == image[a..a + 4]
  {
    hide IsJmp;
    hide Word;
    var op, low := WordAt(image, a), WordAt(image, a + 2);
    WordBytes(image[a + 1], image[a]);
    WordBytes(image[a + 3], image[a + 2]);
    JmpWordUnique(op);
    AddressParts(JmpTarget(image, a), 0, low, op % 2, op / 16 % 32, 0);
  }

  lemma WordBytes(hi: byte, lo: byte)
    ensures Word(hi, lo) % 256 == lo && Word(hi, lo) / 256 == hi && Word(hi, lo) < 0x1_0000
  {
  }

  lemma Wrapped(dist: int, flashsize: nat)
    requires flashsize >= 8192
    ensures var d := if dist % 8192 >= 4096 then dist % 8192 - 8192 else dist % 8192;
            && DistWrap(dist, flashsize) == d
            && Lower(Raise(d, flashsize), flashsize) == if d < 0 then d + flashsize else d
  {
  }

  // For every flash of 8 KB or more, an even distance back into its last 4 KB is always reached.
  lemma RjmpReachesTop(blstart: int, flashsize: nat)
    requires flashsize >= 8192 && flashsize - 4096 <= blstart < flashsize && (flashsize - blstart) % 2 == 0
    ensures IsRjmp(RjmpToBootloader(blstart, flashsize))
    ensures RjmpTarget(RjmpToBootloader(blstart, flashsize), flashsize) == blstart
  {
    hide DistWrap;
    hide Raise;
    hide Lower;
    var back := (flashsize - blstart) / 2;
    assert HalfTowardZero(blstart - flashsize - 2) == -back - 1;
    DivUnique(-back - 1, 4096, -1, 4095 - back);
    DivUnique(RjmpToBootloader(blstart, flashsize), 4096, 12, 4095 - back);
    var dist := RjmpDist(RjmpToBootloader(blstart, flashsize)) + 2;
    assert dist == -2 * back || (back == 2048 && dist == 4096);
    Wrapped(dist, flashsize);
    DivUnique(dist, 8192, if dist < 0 then -1 else 0, if dist < 0 then dist + 8192 else dist);
  }

  // On this chip the rjmp written for an address decodes back to it exactly when the address is even
  // and in the first or the last 4 KB of the flash.
  lemma RjmpReachExact(blstart: int)
    ensures RjmpTarget(RjmpToBootloader(blstart, FLASH_SIZE), FLASH_SIZE) == blstart
            <==> blstart % 2 == 0 && (0 <= blstart < 4096 || FLASH_SIZE - 4096 <= blstart < FLASH_SIZE)
  {
    hide DistWrap;
    hide Raise;
    hide Lower;
    var half := HalfTowardZero(blstart - FLASH_SIZE - 2);
    var op := RjmpToBootloader(blstart, FLASH_SIZE);
    DivUnique(op, 4096, 12, half % 4096);
    var dist := RjmpDist(op) + 2;
    var q := half / 4096;
    assert dist == 2 * half + 2 - 8192 * q || dist == 2 * half + 2 - 8192 * (q + 1);
    Wrapped(dist, FLASH_SIZE);
    var d := if dist % 8192 >= 4096 then dist % 8192 - 8192 else dist % 8192;
    SameResidue(d, 2 * half + 2, dist, q);
    ReachCases(blstart, half, d);
  }

  // The window that a signed 13-bit distance leaves around address 0, modulo the flash
  lemma ReachCases(blstart: int, half: int, d: int)
    requires half == HalfTowardZero(blstart - FLASH_SIZE - 2)
    requires -4096 <= d < 4096 && (d - 2 * half - 2) % 8192 == 0
    ensures (if d < 0 then d + FLASH_SIZE else d) == blstart
            <==> blstart % 2 == 0 && (0 <= blstart < 4096 || FLASH_SIZE - 4096 <= blstart < FLASH_SIZE)
  {
  }

  lemma SameResidue(d: int, x: int, dist: int, q: int)
    requires dist == x - 8192 * q || dist == x - 8192 * (q + 1)
    requires d == if dist % 8192 >= 4096 then dist % 8192 - 8192 else dist % 8192
    ensures -4096 <= d < 4096 && (d - x) % 8192 == 0
  {
  }
}
