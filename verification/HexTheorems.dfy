// What decoding an Intel HEX file promises: the image it stands for, that a changed byte is caught,
// and that printed records are read back.
module HexTheorems {
  import opened Bytes
  import opened IntelHex

  // ----- The image -----

  // Segment i is the last one that covers the address
  predicate LastCovering(segs: seq<Segment>, a: nat, i: nat) {
    && i < |segs| && Covers(segs[i], a)
    && forall j :: i < j < |segs| ==> !Covers(segs[j], a)
  }

  // b is the byte of the last segment over the address, or erased flash when there is none
  ghost predicate Painted(segs: seq<Segment>, a: nat, b: byte) {
    || (exists i: nat :: LastCovering(segs, a, i) && b == segs[i].data[a - segs[i].start])
    || (b == ERASED && forall i :: 0 <= i < |segs| ==> !Covers(segs[i], a))
  }

  lemma {:induction false} ByteAtIsPainted(segs: seq<Segment>, a: nat)
    ensures Painted(segs, a, ByteAt(segs, a))
  {
    hide Painted;
    hide Covers;
    if segs == [] {
      NothingPainted(a);
    } else {
      var n := |segs| - 1;
      ByteAtIsPainted(segs[..n], a);
      PaintedOver(segs[..n], segs[n], a, ByteAt(segs[..n], a));
      assert segs[..n] + [segs[n]] == segs;
    }
  }

  lemma NothingPainted(a: nat)
    ensures Painted([], a, ERASED)
  {
  }

  // One segment more paints over those before it, where it is.
  lemma PaintedOver(segs: seq<Segment>, last: Segment, a: nat, b: byte)
    requires Painted(segs, a, b)
    ensures Painted(segs + [last], a, if Covers(last, a) then last.data[a - last.start] else b)
  {
    var all, n := segs + [last], |segs|;
    assert all[n] == last && forall i :: 0 <= i < n ==> all[i] == segs[i];
    if Covers(last, a) {
      assert LastCovering(all, a, n);
    } else if i: nat :| LastCovering(segs, a, i) && b == segs[i].data[a - segs[i].start] {
      assert LastCovering(all, a, i);
    }
  }

  lemma {:induction false} TopIsMax(segs: seq<Segment>)
    ensures forall i :: 0 <= i < |segs| ==> segs[i].start + |segs[i].data| <= Top(segs)
    ensures segs == [] ==> Top(segs) == 0
    ensures segs != [] ==> exists i :: 0 <= i < |segs| && Top(segs) == segs[i].start + |segs[i].data|
  {
    if segs != [] {
      var n := |segs| - 1;
      TopIsMax(segs[..n]);
      assert forall i :: 0 <= i < n ==> segs[i] == segs[..n][i];
      if Top(segs) != segs[n].start + |segs[n].data| {
        var i :| 0 <= i < n && Top(segs[..n]) == segs[..n][i].start + |segs[..n][i].data|;
        assert segs[i] == segs[..n][i];
      }
    }
  }

  predicate Fits(segs: seq<Segment>, maxSize: nat) {
    forall i :: 0 <= i < |segs| ==> segs[i].start + |segs[i].data| <= maxSize
  }

  lemma {:induction false} ReadFits(hex: string, pos: nat, line: nat, base: nat, maxSize: nat)
    requires maxSize < U32
    ensures var r := ReadFrom(hex, pos, line, base, maxSize); r.Segments? ==> Fits(r.segs, maxSize)
    decreases |hex| - pos
  {
    hide ParseLine;
    hide LineAt;
    hide Next;
    hide Word;
    if pos < |hex| {
      var parsed := ParseLine(LineAt(hex, pos));
      var isBase := parsed.Good? && (parsed.rec.kind == 2 || parsed.rec.kind == 4) && |parsed.rec.data| == 2;
      NextIs(hex, pos);
      ReadFits(hex, Next(hex, pos), line + 1, if isBase then BaseOf(parsed.rec) else base, maxSize);
    }
  }

  // An accepted file's image fits, is as long as its highest data record reaches, and each byte is
  // that of the last data record over it, or erased.
  lemma DecodedImage(hex: string, maxSize: nat)
    requires maxSize < U32 && Meaning(hex, maxSize).Decoded?
    ensures var segs, image := Reads(hex, maxSize).segs, Meaning(hex, maxSize).image;
            && 0 < |image| <= maxSize
            && (forall i :: 0 <= i < |segs| ==> segs[i].start + |segs[i].data| <= |image|)
            && (exists i :: 0 <= i < |segs| && |image| == segs[i].start + |segs[i].data|)
            && (forall a :: 0 <= a < |image| ==> Painted(segs, a, image[a]))
  {
    hide ReadFrom;
    hide ByteAt;
    hide Top;
    hide Painted;
    var segs := Reads(hex, maxSize).segs;
    ReadFits(hex, 0, 0, 0, maxSize);
    TopIsMax(segs);
    forall a | 0 <= a < Top(segs)
      ensures Painted(segs, a, ByteAt(segs, a))
    {
      ByteAtIsPainted(segs, a);
    }
  }

  // The bases that address records can set
  predicate PossibleBase(base: nat) {
    exists w :: 0 <= w < 65536 && (base == 16 * w || base == 65536 * w)
  }

  // The 32-bit range check tells whether a record fits, except for one that runs past the last
  // address of the highest 64 KB and wraps to a small one.
  lemma RangeCheckExact(base: nat, addr: nat, count: nat, maxSize: nat)
    requires PossibleBase(base) && addr < 65536 && count < 256 && maxSize < U32
    ensures ((base + addr + count) % U32 <= maxSize <==> base + addr + count <= maxSize)
            <==> !(base == 0xFFFF_0000 && addr + count >= 65536 && addr + count - 65536 <= maxSize)
  {
  }

  lemma BaseIsPossible(r: Record)
    requires (r.kind == 2 || r.kind == 4) && |r.data| == 2
    ensures PossibleBase(BaseOf(r)) && BaseOf(r) < U32
  {
    assert Word(r.data[0], r.data[1]) < 65536;
  }

  lemma ZeroIsPossible()
    ensures PossibleBase(0)
  {
    assert 0 == 16 * 0;
  }

  // The base that an address record sets
  function BaseOf(r: Record): nat
    requires |r.data| == 2
  {
    if r.kind == 2 then 16 * Word(r.data[0], r.data[1]) else 65536 * Word(r.data[0], r.data[1])
  }

  // A record that the reader goes on from, and the base then
  predicate GoesOn(r: Record, base: nat, maxSize: nat) {
    if r.kind == 2 || r.kind == 4 then |r.data| == 2
    else if r.kind == 0 then base + r.addr + |r.data| <= maxSize
    else r.kind == 3 || r.kind == 5
  }

  function NextBase(r: Record, base: nat): nat
    requires r.kind == 2 || r.kind == 4 ==> |r.data| == 2
  {
    if r.kind == 2 || r.kind == 4 then BaseOf(r) else base
  }

  // Reading on from line `pos` comes to line `q`, every line before it accepted, with this base there
  predicate ReadsTo(hex: string, pos: nat, base: nat, q: nat, b: nat, maxSize: nat)
    decreases |hex| - pos
  {
    && pos < |hex|
    && ((pos == q && base == b) ||
        match ParseLine(LineAt(hex, pos))
        case Nothing => ReadsTo(hex, Next(hex, pos), base, q, b, maxSize)
        case Bad(_) => false
        case Good(r) => GoesOn(r, base, maxSize) && ReadsTo(hex, Next(hex, pos), NextBase(r, base), q, b, maxSize))
  }

  // The line feeds between two positions
  function Feeds(hex: string, a: nat, b: nat): nat
    requires a <= b <= |hex|
    decreases b - a
  {
    if a == b then 0 else (if hex[a] == '\n' then 1 else 0) + Feeds(hex, a + 1, b)
  }

  lemma {:induction false} FeedsOfLine(hex: string, pos: nat, q: nat)
    requires pos <= |hex| && Next(hex, pos) <= q <= |hex|
    ensures Feeds(hex, pos, q) == 1 + Feeds(hex, Next(hex, pos), q)
    decreases |hex| - pos
  {
    if hex[pos] != '\n' {
      FeedsOfLine(hex, pos + 1, q);
    }
  }

  // The reader does not go on from line `q`
  predicate Stops(hex: string, q: nat, b: nat, maxSize: nat) {
    q < |hex| &&
    var parsed := ParseLine(LineAt(hex, q));
    parsed.Bad? || (parsed.Good? && !GoesOn(parsed.rec, b, maxSize))
  }

  // Reading from the start comes to line `q`, with this base there, and no further
  predicate EndsAt(hex: string, q: nat, b: nat, maxSize: nat)
    requires q < |hex|
  {
    ReadsTo(hex, 0, 0, q, b, maxSize) && Stops(hex, q, b, maxSize)
  }

  // What the reader makes of a line that it does not go on from, the line being number `line`
  function Halt(hex: string, q: nat, line: nat, b: nat, maxSize: nat): Reading
    requires q <= |hex|
  {
    match ParseLine(LineAt(hex, q))
    case Nothing => Segments([])
    case Bad(e) => Rejected(e, line)
    case Good(r) =>
      if r.kind == 2 || r.kind == 4 then Rejected(BadAddressRecord, line)
      else if r.kind == 0 then
        if (b + r.addr + |r.data|) % U32 > maxSize then Rejected(PastFlash, line) else Undefined(line)
      else if r.kind == 1 then Segments([])
      else Rejected(Unsupported, line)
  }

  lemma {:induction false} HaltsThere(hex: string, pos: nat, line: nat, base: nat, q: nat, b: nat, maxSize: nat)
    requires maxSize < U32 && ReadsTo(hex, pos, base, q, b, maxSize) && Stops(hex, q, b, maxSize)
    ensures pos <= q < |hex|
    ensures var r := ReadFrom(hex, pos, line, base, maxSize);
            var h := Halt(hex, q, line + Feeds(hex, pos, q) + 1, b, maxSize);
            if h.Segments? then r.Segments? else r == h
    decreases |hex| - pos
  {
    hide ParseLine;
    hide LineAt;
    if !(pos == q && base == b) {
      var parsed := ParseLine(LineAt(hex, pos));
      var base' := if parsed.Good? then NextBase(parsed.rec, base) else base;
      HaltsThere(hex, Next(hex, pos), line + 1, base', q, b, maxSize);
      FeedsOfLine(hex, pos, q);
      OneStep(hex, pos, line, base, maxSize);
    }
  }

  // From a line that the reader goes on from, it goes on.
  lemma OneStep(hex: string, pos: nat, line: nat, base: nat, maxSize: nat)
    requires maxSize < U32 && pos < |hex| && !ParseLine(LineAt(hex, pos)).Bad?
    requires ParseLine(LineAt(hex, pos)).Good? ==> GoesOn(ParseLine(LineAt(hex, pos)).rec, base, maxSize)
    ensures var parsed := ParseLine(LineAt(hex, pos));
            var base' := if parsed.Good? then NextBase(parsed.rec, base) else base;
            var r := ReadFrom(hex, Next(hex, pos), line + 1, base', maxSize);
            if r.Segments? then ReadFrom(hex, pos, line, base, maxSize).Segments?
            else ReadFrom(hex, pos, line, base, maxSize) == r
  {
    hide ParseLine;
    hide LineAt;
    hide Next;
  }

  // A reader that does not run out of lines stops somewhere.
  lemma {:induction false} FindStop(hex: string, pos: nat, line: nat, base: nat, maxSize: nat) returns (q: nat, b: nat)
    requires maxSize < U32 && ReadFrom(hex, pos, line, base, maxSize) != Rejected(NoEndRecord, 0)
    ensures ReadsTo(hex, pos, base, q, b, maxSize) && Stops(hex, q, b, maxSize)
    ensures PossibleBase(base) ==> PossibleBase(b)
    decreases |hex| - pos
  {
    hide ParseLine;
    hide LineAt;
    hide PossibleBase;
    var parsed := ParseLine(LineAt(hex, pos));
    if Stops(hex, pos, base, maxSize) {
      return pos, base;
    }
    var base' := if parsed.Good? then NextBase(parsed.rec, base) else base;
    OneStep(hex, pos, line, base, maxSize);
    if parsed.Good? && (parsed.rec.kind == 2 || parsed.rec.kind == 4) {
      BaseIsPossible(parsed.rec);
    }
    q, b := FindStop(hex, Next(hex, pos), line + 1, base', maxSize);
  }

  // What is wrong with a line that is refused, in unbounded arithmetic
  predicate Faulty(hex: string, q: nat, b: nat, maxSize: nat, e: HexError) {
    q < |hex| &&
    match ParseLine(LineAt(hex, q))
    case Nothing => false
    case Bad(error) => e == error
    case Good(r) =>
      match e
      case BadAddressRecord => (r.kind == 2 || r.kind == 4) && |r.data| != 2
      case PastFlash => r.kind == 0 && b + r.addr + |r.data| > maxSize && !Wraps(hex, q, b, maxSize)
      case Unsupported => r.kind > 5
      case _ => false
  }

  // Line `q` is a data record that starts in the last 64 KB of the 32-bit addresses and ends, past the last of
  // them, at what looks like a small address
  predicate Wraps(hex: string, q: nat, b: nat, maxSize: nat) {
    q < |hex| &&
    var r := ParseLine(LineAt(hex, q));
    && r.Good? && r.rec.kind == 0 && b == 0xFFFF_0000
    && r.rec.addr + |r.rec.data| >= 65536 && r.rec.addr + |r.rec.data| - 65536 <= maxSize
  }

  lemma ParsedSmall(line: string)
    ensures ParseLine(line).Good? ==> ParseLine(line).rec.addr < 65536 && |ParseLine(line).rec.data| < 256
    ensures ParseLine(line).Bad? ==> ParseLine(line).error !in {NoEndRecord, NoData}
  {
    hide AllHex;
    hide Sum;
    hide Nibble;
  }

  predicate EndsFile(hex: string, q: nat) { q < |hex| && IsEndRecord(LineAt(hex, q)) }

  // The verdict on the line the reader stops at
  lemma HaltIs(hex: string, q: nat, line: nat, b: nat, maxSize: nat)
    requires maxSize < U32 && q < |hex| && PossibleBase(b) && Stops(hex, q, b, maxSize)
    ensures var h := Halt(hex, q, line, b, maxSize);
            && (h.Segments? <==> EndsFile(hex, q))
            && (h.Undefined? <==> Wraps(hex, q, b, maxSize))
            && (h.Rejected? ==> h.error !in {NoEndRecord, NoData} && h.line == line)
            && (forall e :: h == Rejected(e, line) <==> Faulty(hex, q, b, maxSize, e))
  {
    hide ParseLine;
    hide LineAt;
    hide PossibleBase;
    var parsed := ParseLine(LineAt(hex, q));
    ParsedSmall(LineAt(hex, q));
    if parsed.Good? {
      RangeCheckExact(b, parsed.rec.addr, |parsed.rec.data|, maxSize);
    }
  }

  lemma {:induction false} BaseStaysPossible(hex: string, pos: nat, base: nat, q: nat, b: nat, maxSize: nat)
    requires ReadsTo(hex, pos, base, q, b, maxSize) && PossibleBase(base)
    ensures PossibleBase(b)
    decreases |hex| - pos
  {
    hide ParseLine;
    hide LineAt;
    hide PossibleBase;
    var parsed := ParseLine(LineAt(hex, pos));
    if !(pos == q && base == b) {
      if parsed.Good? && (parsed.rec.kind == 2 || parsed.rec.kind == 4) {
        BaseIsPossible(parsed.rec);
      }
      BaseStaysPossible(hex, Next(hex, pos), if parsed.Good? then NextBase(parsed.rec, base) else base, q, b, maxSize);
    }
  }

  // The meaning of a file that stops somewhere is the verdict on where it stops.
  lemma MeaningAtStop(hex: string, q: nat, b: nat, maxSize: nat)
    requires maxSize < U32 && q < |hex| && EndsAt(hex, q, b, maxSize)
    ensures var m, line := Meaning(hex, maxSize), Feeds(hex, 0, q) + 1;
            && (m.Decoded? || m == Refused(NoData, 0) <==> EndsFile(hex, q))
            && (m.Unknown? <==> Wraps(hex, q, b, maxSize))
            && (forall e, l :: e !in {NoEndRecord, NoData} ==>
                  (m == Refused(e, l) <==> Faulty(hex, q, b, maxSize, e) && l == line))
            && m != Refused(NoEndRecord, 0)
  {
    hide ReadFrom;
    hide Halt;
    hide Faulty;
    hide Wraps;
    hide EndsFile;
    hide PossibleBase;
    hide ReadsTo;
    hide Stops;
    hide Top;
    hide ImageOf;
    HaltsThere(hex, 0, 0, 0, q, b, maxSize);
    ZeroIsPossible();
    BaseStaysPossible(hex, 0, 0, q, b, maxSize);
    HaltIs(hex, q, Feeds(hex, 0, q) + 1, b, maxSize);
  }

  lemma StopOfMeaning(hex: string, maxSize: nat) returns (q: nat, b: nat)
    requires maxSize < U32 && Meaning(hex, maxSize) != Refused(NoEndRecord, 0)
    ensures q < |hex| && EndsAt(hex, q, b, maxSize)
  {
    hide ReadFrom;
    q, b := FindStop(hex, 0, 0, 0, maxSize);
  }

  // A file is read to its end if and only if, with every line before it accepted, there is an end record.
  lemma EndIsReached(hex: string, maxSize: nat)
    requires maxSize < U32
    ensures Meaning(hex, maxSize).Decoded? || Meaning(hex, maxSize) == Refused(NoData, 0)
            <==> exists q, b :: 0 <= q < |hex| && EndsAt(hex, q, b, maxSize) && EndsFile(hex, q)
  {
    hide Meaning;
    hide EndsAt;
    hide EndsFile;
    if Meaning(hex, maxSize) != Refused(NoEndRecord, 0) {
      var q, b := StopOfMeaning(hex, maxSize);
      MeaningAtStop(hex, q, b, maxSize);
    }
    if q, b :| 0 <= q < |hex| && EndsAt(hex, q, b, maxSize) && EndsFile(hex, q) {
      MeaningAtStop(hex, q, b, maxSize);
    }
  }

  // A file is refused for one of its lines if and only if, with every line before it accepted, that line is faulty; and
  // the number given is the line's.
  lemma FirstFaultNamed(hex: string, maxSize: nat, e: HexError, line: nat)
    requires maxSize < U32 && e !in {NoEndRecord, NoData}
    ensures Meaning(hex, maxSize) == Refused(e, line)
            <==> exists q, b :: 0 <= q < |hex| && EndsAt(hex, q, b, maxSize) && Faulty(hex, q, b, maxSize, e)
                   && line == Feeds(hex, 0, q) + 1
  {
    hide Meaning;
    hide EndsAt;
    hide Faulty;
    if Meaning(hex, maxSize) != Refused(NoEndRecord, 0) {
      var q, b := StopOfMeaning(hex, maxSize);
      MeaningAtStop(hex, q, b, maxSize);
    }
    if q, b :| && 0 <= q < |hex| && EndsAt(hex, q, b, maxSize) && Faulty(hex, q, b, maxSize, e)
               && line == Feeds(hex, 0, q) + 1 {
      MeaningAtStop(hex, q, b, maxSize);
    }
  }

  // The decoder's range check lets a record through that does not fit if and only if reading, with every line
  // before it accepted, comes to a data record that wraps.
  lemma UnknownExact(hex: string, maxSize: nat)
    requires maxSize < U32
    ensures Meaning(hex, maxSize).Unknown?
            <==> exists q, b :: 0 <= q < |hex| && EndsAt(hex, q, b, maxSize) && Wraps(hex, q, b, maxSize)
  {
    hide Meaning;
    hide EndsAt;
    hide Wraps;
    if Meaning(hex, maxSize) != Refused(NoEndRecord, 0) {
      var q, b := StopOfMeaning(hex, maxSize);
      MeaningAtStop(hex, q, b, maxSize);
    }
    if q, b :| 0 <= q < |hex| && EndsAt(hex, q, b, maxSize) && Wraps(hex, q, b, maxSize) {
      MeaningAtStop(hex, q, b, maxSize);
    }
  }

  // ----- A changed byte -----

  lemma {:induction false} SumUpdate(s: seq<byte>, i: nat, b: byte)
    requires i < |s|
    ensures Sum(s[i := b]) == Sum(s) - s[i] + b
  {
    var n := |s| - 1;
    if i == n {
      assert s[i := b][..n] == s[..n];
    } else {
      SumUpdate(s[..n], i, b);
      assert s[i := b][..n] == s[..n][i := b];
    }
  }

  // The same line but for byte i, whose digits spell another value
  predicate ByteChanged(line: string, line': string, i: nat) {
    && |line| == |line'| && 2 + 2 * i < |line|
    && (forall j :: 0 <= j < |line| && j != 1 + 2 * i && j != 2 + 2 * i ==> line'[j] == line[j])
    && Nibble(line[1 + 2 * i]) >= 0 && Nibble(line[2 + 2 * i]) >= 0
    && Nibble(line'[1 + 2 * i]) >= 0 && Nibble(line'[2 + 2 * i]) >= 0
    && ByteOf(line, i) != ByteOf(line', i)
  }

  lemma ChangedBytes(line: string, line': string, i: nat, n: nat)
    requires ByteChanged(line, line', i) && i < n && 1 + 2 * n <= |line| && AllHex(line, n)
    ensures AllHex(line', n) && HexBytes(line', n) == HexBytes(line, n)[i := ByteOf(line', i)]
  {
    forall j | 0 <= j < n && j != i
      ensures ByteOf(line', j) == ByteOf(line, j)
    {
    }
  }

  lemma ChecksumMoves(sum: int, a: byte, b: byte)
    requires sum % 256 == 0 && a != b
    ensures (sum - a + b) % 256 != 0
  {
  }

  // A record with one byte changed has a wrong length if it is the count, a wrong checksum otherwise.
  lemma ChangedLine(line: string, line': string, i: nat)
    requires ParseLine(line).Good? && ByteChanged(line, line', i)
    ensures ParseLine(line') == Bad(if i == 0 then WrongLength else WrongChecksum)
  {
    hide Nibble;
    hide ByteOf;
    hide AllHex;
    hide HexBytes;
    hide Sum;
    var n := (|line| - 1) / 2;
    var rec, b := HexBytes(line, n), ByteOf(line', i);
    ChangedBytes(line, line', i, n);
    SumUpdate(rec, i, b);
    ChecksumMoves(Sum(rec), rec[i], b);
  }

  lemma {:induction false} TrimSame(raw: string, raw': string, n: nat)
    requires |raw| == |raw'| && 0 < n == |Trim(raw)| && !Blank(raw'[n - 1])
    requires forall j :: n <= j < |raw| ==> raw'[j] == raw[j]
    ensures Trim(raw) == raw[..n] && Trim(raw') == raw'[..n]
  {
    if Blank(raw[|raw| - 1]) {
      var m := |raw| - 1;
      TrimSame(raw[..m], raw'[..m], n);
      assert raw[..m][..n] == raw[..n] && raw'[..m][..n] == raw'[..n];
      assert n < |raw|;
    }
  }

  lemma {:induction false} TrimLength(raw: string)
    ensures |Trim(raw)| <= |raw|
    ensures Trim(raw) == raw[..|Trim(raw)|]
    ensures Trim(raw) != "" ==> !Blank(Trim(raw)[|Trim(raw)| - 1])
  {
    if raw != "" && Blank(raw[|raw| - 1]) {
      TrimLength(raw[..|raw| - 1]);
    }
  }

  lemma {:induction false} LineEndSame(hex: string, hex': string, pos: nat)
    requires |hex| == |hex'| && pos <= |hex|
    requires forall j :: pos <= j < |hex| ==> (hex[j] == '\n' <==> hex'[j] == '\n')
    ensures LineEnd(hex, pos) == LineEnd(hex', pos)
    decreases |hex| - pos
  {
    if pos < |hex| && hex[pos] != '\n' {
      LineEndSame(hex, hex', pos + 1);
    }
  }

  predicate IsEndRecord(line: string) {
    var r := ParseLine(line);
    r.Good? && r.rec.kind == 1
  }

  // Reading on from the line at `pos` comes to the line at `q` before it is past the end record
  predicate Reaches(hex: string, pos: nat, q: nat)
    decreases |hex| - pos
  {
    pos < |hex| && (pos == q || (!IsEndRecord(LineAt(hex, pos)) && Reaches(hex, Next(hex, pos), q)))
  }

  lemma {:induction false} ReachesForward(hex: string, pos: nat, q: nat)
    requires Reaches(hex, pos, q)
    ensures pos <= q < |hex|
    decreases |hex| - pos
  {
    if pos != q {
      ReachesForward(hex, Next(hex, pos), q);
    }
  }

  // The file with the two digits of byte i of the record at `q` spelling another value
  predicate FileChanged(hex: string, hex': string, q: nat, i: nat) {
    && q < |hex| == |hex'| && 2 + 2 * i < |LineAt(hex, q)| <= |hex| - q
    && (forall j :: 0 <= j < |hex| && j != q + 1 + 2 * i && j != q + 2 + 2 * i ==> hex'[j] == hex[j])
    && Nibble(hex'[q + 1 + 2 * i]) >= 0 && Nibble(hex'[q + 2 + 2 * i]) >= 0
    && (Nibble(hex'[q + 1 + 2 * i]) != Nibble(hex[q + 1 + 2 * i])
        || Nibble(hex'[q + 2 + 2 * i]) != Nibble(hex[q + 2 + 2 * i]))
  }

  lemma GoodDigits(line: string, i: nat)
    requires ParseLine(line).Good? && 2 + 2 * i < |line|
    ensures Nibble(line[1 + 2 * i]) >= 0 && Nibble(line[2 + 2 * i]) >= 0
  {
  }

  lemma SliceOfSlice(s: string, a: nat, b: nat, n: nat)
    requires a <= b <= |s| && n <= b - a
    ensures s[a..b][..n] == s[a..a + n]
    ensures n > 0 ==> s[a..b][n - 1] == s[a + n - 1]
  {
  }

  // The digits of byte i are what ends a line, or are followed by what does.
  lemma LastIsPlain(hex: string, hex': string, q: nat, i: nat)
    requires FileChanged(hex, hex', q, i) && ParseLine(LineAt(hex, q)).Good?
    requires !Blank(hex[q + |LineAt(hex, q)| - 1])
    ensures !Blank(hex'[q + |LineAt(hex, q)| - 1])
    ensures forall j :: q <= j < |hex| ==> (hex[j] == '\n' <==> hex'[j] == '\n')
  {
    hide Nibble;
    hide ParseLine;
    GoodDigits(LineAt(hex, q), i);
    TrimLength(hex[q..LineEnd(hex, q)]);
    DigitsArePlain(hex[q + 1 + 2 * i]);
    DigitsArePlain(hex[q + 2 + 2 * i]);
    DigitsArePlain(hex'[q + 1 + 2 * i]);
    DigitsArePlain(hex'[q + 2 + 2 * i]);
  }

  // The changed file has at `q` the same line but for the two digits.
  lemma ChangedLineAt(hex: string, hex': string, q: nat, i: nat)
    requires FileChanged(hex, hex', q, i) && ParseLine(LineAt(hex, q)).Good?
    ensures var n := |LineAt(hex, q)|;
            && LineAt(hex, q) == hex[q..q + n] && LineAt(hex', q) == hex'[q..q + n]
  {
    hide Nibble;
    hide ParseLine;
    hide Blank;
    hide Trim;
    var end, n := LineEnd(hex, q), |LineAt(hex, q)|;
    var raw, raw' := hex[q..end], hex'[q..end];
    TrimLength(raw);
    SliceOfSlice(hex, q, end, n);
    SliceOfSlice(hex', q, end, n);
    LastIsPlain(hex, hex', q, i);
    LineEndSame(hex, hex', q);
    TrimSame(raw, raw', n);
  }

  lemma ChangedAt(hex: string, hex': string, q: nat, i: nat)
    requires FileChanged(hex, hex', q, i) && ParseLine(LineAt(hex, q)).Good?
    ensures ByteChanged(LineAt(hex, q), LineAt(hex', q), i)
  {
    hide Nibble;
    hide ParseLine;
    hide LineAt;
    ChangedLineAt(hex, hex', q, i);
    GoodDigits(LineAt(hex, q), i);
    DifferentDigits(LineAt(hex, q), LineAt(hex', q), i);
  }

  lemma DigitsArePlain(c: char)
    requires Nibble(c) >= 0
    ensures c != '\n' && !Blank(c) && Nibble(c) < 16
  {
  }

  lemma DifferentDigits(line: string, line': string, i: nat)
    requires 2 + 2 * i < |line| == |line'|
    requires Nibble(line[1 + 2 * i]) >= 0 && Nibble(line[2 + 2 * i]) >= 0
    requires Nibble(line'[1 + 2 * i]) >= 0 && Nibble(line'[2 + 2 * i]) >= 0
    requires Nibble(line'[1 + 2 * i]) != Nibble(line[1 + 2 * i]) || Nibble(line'[2 + 2 * i]) != Nibble(line[2 + 2 * i])
    ensures ByteOf(line, i) != ByteOf(line', i)
  {
  }

  lemma {:induction false} CorruptionFrom(hex: string, hex': string, pos: nat, q: nat, i: nat,
                                          line: nat, base: nat, maxSize: nat)
    requires FileChanged(hex, hex', q, i) && Reaches(hex, pos, q) && ParseLine(LineAt(hex, q)).Good?
    requires ReadFrom(hex, pos, line, base, maxSize).Segments?
    ensures ReadFrom(hex', pos, line, base, maxSize).Rejected?
    ensures ReadFrom(hex', pos, line, base, maxSize).error == if i == 0 then WrongLength else WrongChecksum
    decreases |hex| - pos
  {
    hide ParseLine;
    hide Nibble;
    hide LineAt;
    if pos == q {
      ChangedAt(hex, hex', q, i);
      ChangedLine(LineAt(hex, q), LineAt(hex', q), i);
    } else {
      ReachesForward(hex, Next(hex, pos), q);
      SameLine(hex, hex', pos, q, i);
      var parsed := ParseLine(LineAt(hex, pos));
      var isBase := parsed.Good? && (parsed.rec.kind == 2 || parsed.rec.kind == 4);
      var base' := if isBase then BaseOf(parsed.rec) else base;
      CorruptionFrom(hex, hex', Next(hex, pos), q, i, line + 1, base', maxSize);
    }
  }

  lemma {:induction false} LineEndBefore(hex: string, hex': string, pos: nat, end: nat)
    requires |hex| == |hex'| && pos <= |hex| && LineEnd(hex, pos) == end < |hex|
    requires forall j :: pos <= j <= end ==> hex'[j] == hex[j]
    ensures LineEnd(hex', pos) == end
    decreases |hex| - pos
  {
    if hex[pos] != '\n' {
      LineEndBefore(hex, hex', pos + 1, end);
    }
  }

  // A line before the change is read as before.
  lemma SameLine(hex: string, hex': string, pos: nat, q: nat, i: nat)
    requires FileChanged(hex, hex', q, i) && pos < |hex| && Next(hex, pos) <= q
    ensures LineAt(hex', pos) == LineAt(hex, pos) && Next(hex', pos) == Next(hex, pos)
  {
    LineEndBefore(hex, hex', pos, LineEnd(hex, pos));
    assert hex'[pos..LineEnd(hex, pos)] == hex[pos..LineEnd(hex, pos)];
  }

  // Change the value of any one byte of any record of an accepted file, up to and including its end
  // record, and the file is refused.
  lemma CorruptionCaught(hex: string, hex': string, q: nat, i: nat, maxSize: nat)
    requires Meaning(hex, maxSize).Decoded?
    requires FileChanged(hex, hex', q, i) && Reaches(hex, 0, q) && ParseLine(LineAt(hex, q)).Good?
    ensures Meaning(hex', maxSize).Refused?
    ensures Meaning(hex', maxSize).error == if i == 0 then WrongLength else WrongChecksum
  {
    CorruptionFrom(hex, hex', 0, q, i, 0, 0, maxSize);
  }

  // ----- A file cut short -----

  // A good line says how long it is, so no good line is the start of another.
  lemma ShorterIsBad(line: string, n: nat)
    requires ParseLine(line).Good? && n < |line|
    ensures !ParseLine(line[..n]).Good?
  {
    hide Nibble;
    hide Sum;
  }

  lemma {:induction false} TrimOfCut(raw: string, n: nat)
    requires n <= |raw|
    ensures if n >= |Trim(raw)| then Trim(raw[..n]) == Trim(raw)
            else |Trim(raw[..n])| <= n && Trim(raw[..n]) == Trim(raw)[..|Trim(raw[..n])|]
    decreases |raw|
  {
    TrimLength(raw);
    TrimLength(raw[..n]);
    if n < |Trim(raw)| {
      var m := |Trim(raw[..n])|;
      assert raw[..n][..m] == raw[..m] == raw[..|Trim(raw)|][..m];
    } else if n == |raw| {
      assert raw[..n] == raw;
    } else if Blank(raw[|raw| - 1]) {
      TrimOfCut(raw[..|raw| - 1], n);
      assert raw[..|raw| - 1][..n] == raw[..n];
    }
  }

  lemma {:induction false} LineEndOfCut(hex: string, n: nat, pos: nat)
    requires pos <= n <= |hex|
    ensures LineEnd(hex[..n], pos) == if LineEnd(hex, pos) < n then LineEnd(hex, pos) else n
    decreases n - pos
  {
    if pos < n && hex[pos] != '\n' {
      LineEndOfCut(hex, n, pos + 1);
    }
  }

  // A line of a cut file is the line it was, or is no record.
  lemma LineOfCut(hex: string, n: nat, pos: nat)
    requires pos <= n <= |hex| && !ParseLine(LineAt(hex, pos)).Bad?
    ensures pos + |LineAt(hex, pos)| <= LineEnd(hex, pos)
    ensures if n >= pos + |LineAt(hex, pos)| then LineAt(hex[..n], pos) == LineAt(hex, pos)
            else !ParseLine(LineAt(hex[..n], pos)).Good? && Next(hex[..n], pos) > n
    ensures LineEnd(hex, pos) < n ==> Next(hex[..n], pos) == Next(hex, pos)
    ensures LineEnd(hex, pos) >= n ==> Next(hex[..n], pos) == n + 1
  {
    hide ParseLine;
    hide Trim;
    LineEndOfCut(hex, n, pos);
    var end := LineEnd(hex, pos);
    var raw := hex[pos..end];
    TrimLength(raw);
    if end <= n {
      assert hex[..n][pos..end] == raw;
    } else {
      assert hex[..n][pos..n] == raw[..n - pos];
      TrimOfCut(raw, n - pos);
      if n < pos + |Trim(raw)| {
        var m := |Trim(raw[..n - pos])|;
        NotEmptyIsGood(Trim(raw));
        ShorterIsBad(Trim(raw), m);
      }
    }
  }

  lemma NotEmptyIsGood(line: string)
    ensures ParseLine(line).Nothing? <==> line == ""
  {
  }

  lemma {:induction false} CutFrom(hex: string, n: nat, pos: nat, q: nat, line: nat, base: nat, maxSize: nat)
    requires maxSize < U32 && n <= |hex| && Reaches(hex, pos, q) && EndsFile(hex, q)
    requires ReadFrom(hex, pos, line, base, maxSize).Segments?
    ensures if n >= q + |LineAt(hex, q)|
            then ReadFrom(hex[..n], pos, line, base, maxSize) == ReadFrom(hex, pos, line, base, maxSize)
            else ReadFrom(hex[..n], pos, line, base, maxSize).Rejected?
    decreases |hex| - pos
  {
    hide ParseLine;
    hide LineAt;
    hide Next;
    ReachesForward(hex, pos, q);
    NotEmptyIsGood(LineAt(hex, q));
    if pos < n {
      LineOfCut(hex, n, pos);
      var parsed := ParseLine(LineAt(hex, pos));
      var isBase := parsed.Good? && (parsed.rec.kind == 2 || parsed.rec.kind == 4);
      var base' := if isBase then BaseOf(parsed.rec) else base;
      PastEnd(hex[..n], Next(hex[..n], pos), line + 1, base', maxSize);
      if pos != q {
        NextIs(hex, pos);
        ReachesForward(hex, Next(hex, pos), q);
        CutFrom(hex, n, Next(hex, pos), q, line + 1, base', maxSize);
      }
    }
  }

  lemma PastEnd(hex: string, pos: nat, line: nat, base: nat, maxSize: nat)
    ensures pos >= |hex| ==> ReadFrom(hex, pos, line, base, maxSize) == Rejected(NoEndRecord, 0)
  {
  }

  lemma NextIs(hex: string, pos: nat)
    requires pos <= |hex|
    ensures Next(hex, pos) == LineEnd(hex, pos) + 1
  {
  }

  // An accepted file that is cut short is accepted as before if its end record is whole, and refused if it is not.
  lemma CutExact(hex: string, n: nat, q: nat, maxSize: nat)
    requires maxSize < U32 && n <= |hex| && Meaning(hex, maxSize).Decoded?
    requires Reaches(hex, 0, q) && EndsFile(hex, q)
    ensures if n >= q + |LineAt(hex, q)| then Meaning(hex[..n], maxSize) == Meaning(hex, maxSize)
            else Meaning(hex[..n], maxSize).Refused?
  {
    hide ReadFrom;
    hide LineAt;
    hide Reaches;
    hide EndsFile;
    hide ImageOf;
    hide Top;
    CutFrom(hex, n, 0, q, 0, 0, maxSize);
  }
}
