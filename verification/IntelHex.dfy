// Intel HEX decoding of firmware files (src/core/svs_hex.h). The record format is that of Intel's
// Hexadecimal Object File Format Specification, Revision A.
module IntelHex {
  import opened Bytes

  datatype HexError =
    | NotARecord | TooLong | BadCharacters | WrongLength | WrongChecksum | BadAddressRecord
    | PastFlash | Unsupported | NoEndRecord | NoData

  // ----- One line -----

  function Nibble(c: char): int {
    if '0' <= c <= '9' then c as int - '0' as int
    else if 'A' <= c <= 'F' then c as int - 'A' as int + 10
    else if 'a' <= c <= 'f' then c as int - 'a' as int + 10
    else -1
  }

  // The index of the first line feed at or after `pos`, or the length
  function LineEnd(hex: string, pos: nat): (end: nat)
    requires pos <= |hex|
    ensures pos <= end <= |hex|
    decreases |hex| - pos
  {
    if pos == |hex| || hex[pos] == '\n' then pos else LineEnd(hex, pos + 1)
  }

  predicate Blank(c: char) { c == '\r' || c == ' ' || c == '\t' }

  // The line without its trailing blanks
  function Trim(line: string): (r: string)
    ensures |r| <= |line|
  {
    if line != "" && Blank(line[|line| - 1]) then Trim(line[..|line| - 1]) else line
  }

  predicate AllHex(line: string, k: nat)
    requires 1 + 2 * k <= |line|
  {
    forall i :: 1 <= i < 1 + 2 * k ==> Nibble(line[i]) >= 0
  }

  // The byte that digits 1 + 2i and 2 + 2i spell
  function ByteOf(line: string, i: nat): byte
    requires 2 + 2 * i < |line| && Nibble(line[1 + 2 * i]) >= 0 && Nibble(line[2 + 2 * i]) >= 0
  {
    16 * Nibble(line[1 + 2 * i]) + Nibble(line[2 + 2 * i])
  }

  function HexBytes(line: string, k: nat): (r: seq<byte>)
    requires 1 + 2 * k <= |line| && AllHex(line, k)
    ensures |r| == k && forall i :: 0 <= i < k ==> r[i] == ByteOf(line, i)
  {
    if k == 0 then [] else HexBytes(line, k - 1) + [ByteOf(line, k - 1)]
  }

  function Sum(s: seq<byte>): nat {
    if s == [] then 0 else Sum(s[..|s| - 1]) + s[|s| - 1]
  }

  datatype Record = Record(addr: nat, kind: byte, data: seq<byte>)

  datatype LineResult = Nothing | Bad(error: HexError) | Good(rec: Record)

  predicate Shaped(line: string) {
    |line| >= 11 && line[0] == ':' && (|line| - 1) % 2 == 0
  }

  // What one trimmed line means
  function ParseLine(line: string): LineResult {
    if line == "" then Nothing
    else if !Shaped(line) then Bad(NotARecord)
    else
      var n := (|line| - 1) / 2;
      if n > 260 then Bad(TooLong)
      else if !AllHex(line, n) then Bad(BadCharacters)
      else
        var rec := HexBytes(line, n);
        if n != rec[0] as int + 5 then Bad(WrongLength)
        else if Sum(rec) % 256 != 0 then Bad(WrongChecksum)
        else Good(Record(Word(rec[1], rec[2]), rec[3], rec[4..n - 1]))
  }

  // ----- The file -----

  // Bytes that a data record puts at an address
  datatype Segment = Segment(start: nat, data: seq<byte>)

  datatype Reading =
    | Segments(segs: seq<Segment>)
    | Rejected(error: HexError, line: nat)
      // The 32-bit end of a data record wrapped to a small number and passed the range check; what the
      // copy that follows does is not modelled
    | Undefined(line: nat)

  function Then(first: seq<Segment>, rest: Reading): Reading {
    if rest.Segments? then Segments(first + rest.segs) else rest
  }

  function LineAt(hex: string, pos: nat): string
    requires pos <= |hex|
  {
    Trim(hex[pos..LineEnd(hex, pos)])
  }

  function Next(hex: string, pos: nat): nat
    requires pos <= |hex|
  {
    LineEnd(hex, pos) + 1
  }

  // What the file means from position `pos` on, with `line` lines behind it and `base` the current
  // upper address: the data records in order up to the end record, or why not
  function ReadFrom(hex: string, pos: nat, line: nat, base: nat, maxSize: nat): Reading
    decreases |hex| - pos
  {
    if pos >= |hex| then Rejected(NoEndRecord, 0)
    else
      match ParseLine(LineAt(hex, pos))
      case Nothing => ReadFrom(hex, Next(hex, pos), line + 1, base, maxSize)
      case Bad(e) => Rejected(e, line + 1)
      case Good(r) =>
        if r.kind == 2 || r.kind == 4 then
          if |r.data| != 2 then Rejected(BadAddressRecord, line + 1)
          else
            var w := Word(r.data[0], r.data[1]);
            ReadFrom(hex, Next(hex, pos), line + 1, if r.kind == 2 then 16 * w else 65536 * w, maxSize)
        else if r.kind == 0 then
          var end := base + r.addr + |r.data|;
          if end % U32 > maxSize then Rejected(PastFlash, line + 1)
          else if end >= U32 then Undefined(line + 1)
          else Then([Segment(base + r.addr, r.data)], ReadFrom(hex, Next(hex, pos), line + 1, base, maxSize))
        else if r.kind == 1 then Segments([])
        else if r.kind == 3 || r.kind == 5 then ReadFrom(hex, Next(hex, pos), line + 1, base, maxSize)
        else Rejected(Unsupported, line + 1)
  }

  function Reads(hex: string, maxSize: nat): Reading {
    ReadFrom(hex, 0, 0, 0, maxSize)
  }

  // ----- The image -----

  predicate Covers(s: Segment, a: nat) { s.start <= a < s.start + |s.data| }

  // The byte of the last segment that covers the address, or erased flash
  function ByteAt(segs: seq<Segment>, a: nat): byte {
    if segs == [] then ERASED
    else
      var last := segs[|segs| - 1];
      if Covers(last, a) then last.data[a - last.start] else ByteAt(segs[..|segs| - 1], a)
  }

  // The end of the segment that ends highest
  function Top(segs: seq<Segment>): nat {
    if segs == [] then 0 else Max(Top(segs[..|segs| - 1]), segs[|segs| - 1].start + |segs[|segs| - 1].data|)
  }

  function ImageOf(segs: seq<Segment>): seq<byte> {
    seq(Top(segs), a requires 0 <= a => ByteAt(segs, a))
  }

  datatype Outcome = Decoded(image: seq<byte>) | Refused(error: HexError, line: nat) | Unknown(line: nat)

  // The meaning of a whole file
  function Meaning(hex: string, maxSize: nat): Outcome {
    match Reads(hex, maxSize)
    case Segments(segs) => if Top(segs) == 0 then Refused(NoData, 0) else Decoded(ImageOf(segs))
    case Rejected(e, line) => Refused(e, line)
    case Undefined(line) => Unknown(line)
  }

  // ----- The decoder -----

  method FindLineEnd(hex: string, pos: nat) returns (end: nat)
    requires pos <= |hex|
    ensures end == LineEnd(hex, pos)
  {
    end := pos;
    while end < |hex| && hex[end] != '\n'
      invariant pos <= end <= |hex| && LineEnd(hex, end) == LineEnd(hex, pos)
    {
      end := end + 1;
    }
  }

  // Where a line of `n` characters at `pos` ends once trailing blanks are dropped
  method TrimEnd(hex: string, pos: nat, end: nat) returns (n: nat)
    requires pos <= end <= |hex|
    ensures pos + n <= end && hex[pos..pos + n] == Trim(hex[pos..end])
  {
    n := end - pos;
    while n > 0 && Blank(hex[pos + n - 1])
      invariant pos + n <= end && Trim(hex[pos..pos + n]) == Trim(hex[pos..end])
    {
      assert hex[pos..pos + n][..n - 1] == hex[pos..pos + n - 1];
      n := n - 1;
    }
  }

  lemma SumLast(s: seq<byte>, b: byte)
    ensures Sum(s + [b]) == Sum(s) + b
  {
  }

  // The digits as bytes, and their sum modulo 256
  method ReadBytes(line: string, n: nat) returns (ok: bool, rec: seq<byte>, sum: byte)
    requires 1 + 2 * n <= |line|
    ensures ok == AllHex(line, n)
    ensures ok ==> rec == HexBytes(line, n) && sum == Sum(rec) % 256
  {
    hide Nibble;
    hide Sum;
    hide ByteOf;
    rec, sum := [], 0;
    SumEmpty();
    for i := 0 to n
      invariant AllHex(line, i) && rec == HexBytes(line, i)
      invariant sum == Sum(rec) % 256
    {
      if Nibble(line[1 + 2 * i]) < 0 || Nibble(line[2 + 2 * i]) < 0 {
        return false, [], 0;
      }
      var b := ByteOf(line, i);
      SumLast(rec, b);
      rec := rec + [b];
      sum := (sum as int + b) % 256;
    }
    ok := true;
  }

  lemma SumEmpty()
    ensures Sum([]) == 0
  {
  }

  method ParseRecord(line: string) returns (r: LineResult)
    ensures r == ParseLine(line)
  {
    hide HexBytes;
    hide AllHex;
    hide Sum;
    if line == "" {
      return Nothing;
    }
    if line[0] != ':' || |line| < 11 || (|line| - 1) % 2 != 0 {
      return Bad(NotARecord);
    }
    var n := (|line| - 1) / 2;
    if n > 260 {
      return Bad(TooLong);
    }
    var ok, rec, sum := ReadBytes(line, n);
    if !ok {
      return Bad(BadCharacters);
    }
    if n != rec[0] as int + 5 {
      return Bad(WrongLength);
    }
    if sum != 0 {
      return Bad(WrongChecksum);
    }
    return Good(Record(Word(rec[1], rec[2]), rec[3], rec[4..n - 1]));
  }

  method ReadLine(hex: string, pos: nat) returns (parsed: LineResult, next: nat)
    requires pos <= |hex|
    ensures parsed == ParseLine(LineAt(hex, pos))
    ensures next == Next(hex, pos) > pos
  {
    var end := FindLineEnd(hex, pos);
    var n := TrimEnd(hex, pos, end);
    parsed := ParseRecord(hex[pos..pos + n]);
    next := end + 1;
  }

  lemma ThenThen(a: seq<Segment>, b: seq<Segment>, r: Reading)
    ensures Then(a, Then(b, r)) == Then(a + b, r)
  {
  }

  // Copying one data record into the flash buffer
  method Copy(flash: array<byte>, start: nat, data: seq<byte>)
    requires start + |data| <= flash.Length
    modifies flash
    ensures forall a :: 0 <= a < flash.Length ==>
              flash[a] == if start <= a < start + |data| then data[a - start] else old(flash[a])
  {
    for i := 0 to |data|
      invariant forall a :: 0 <= a < flash.Length ==>
                  flash[a] == if start <= a < start + i then data[a - start] else old(flash[a])
    {
      flash[start + i] := data[i];
    }
  }

  // The buffer and its top are what the data records so far make them
  ghost predicate Holds(flash: array<byte>, top: nat, segs: seq<Segment>)
    reads flash
  {
    && top == Top(segs) <= flash.Length
    && forall a :: 0 <= a < flash.Length ==> flash[a] == ByteAt(segs, a)
  }

  // One data record that fits
  method PutData(flash: array<byte>, top: nat, start: nat, data: seq<byte>, ghost segs: seq<Segment>)
    returns (top': nat)
    requires Holds(flash, top, segs) && start + |data| <= flash.Length
    modifies flash
    ensures Holds(flash, top', segs + [Segment(start, data)])
  {
    Copy(flash, start, data);
    top' := if start + |data| > top then start + |data| else top;
    assert (segs + [Segment(start, data)])[..|segs|] == segs;
  }

  // Decodes the file in one pass over its characters, into a buffer of erased flash
  method DecodeHex(hex: string, maxSize: nat) returns (r: Outcome)
    requires maxSize < U32
    ensures r == Meaning(hex, maxSize)
  {
    hide ParseLine;
    hide LineAt;
    hide Next;
    hide Holds;
    hide Top;
    hide ImageOf;
    var flash := new byte[maxSize](_ => ERASED);
    var top: nat, base: nat, line: nat, pos: nat := 0, 0, 0, 0;
    var eof := false;
    ghost var segs: seq<Segment> := [];
    NoSegments(flash);
    while pos < |hex| && !eof
      invariant fresh(flash) && flash.Length == maxSize && Holds(flash, top, segs)
      invariant Reads(hex, maxSize) ==
                if eof then Segments(segs) else Then(segs, ReadFrom(hex, pos, line, base, maxSize))
      decreases |hex| - pos, !eof
    {
      var parsed, next := ReadLine(hex, pos);
      pos, line := next, line + 1;
      match parsed {
        case Nothing =>
        case Bad(e) => return Refused(e, line);
        case Good(rec) =>
          if (rec.kind == 2 || rec.kind == 4) && |rec.data| != 2 {
            return Refused(BadAddressRecord, line);
          }
          match rec.kind {
            case 0 =>
              var start := base + rec.addr;
              if (start + |rec.data|) % U32 > maxSize {
                return Refused(PastFlash, line);
              }
              if start + |rec.data| >= U32 {
                return Unknown(line);
              }
              top := PutData(flash, top, start, rec.data, segs);
              ThenThen(segs, [Segment(start, rec.data)], ReadFrom(hex, pos, line, base, maxSize));
              segs := segs + [Segment(start, rec.data)];
            case 1 => eof := true;
            case 2 => base := Word(rec.data[0], rec.data[1]) * 16;
            case 4 => base := Word(rec.data[0], rec.data[1]) * 65536;
            case 3 =>
            case 5 =>
            case _ => return Refused(Unsupported, line);
          }
      }
    }
    if !eof {
      return Refused(NoEndRecord, 0);
    }
    HeldImage(flash, top, segs);
    if top == 0 {
      return Refused(NoData, 0);
    }
    return Decoded(flash[..top]);
  }

  lemma HeldImage(flash: array<byte>, top: nat, segs: seq<Segment>)
    requires Holds(flash, top, segs)
    ensures top == Top(segs) <= flash.Length && flash[..top] == ImageOf(segs)
  {
  }

  lemma NoSegments(flash: array<byte>)
    requires forall a :: 0 <= a < flash.Length ==> flash[a] == ERASED
    ensures Holds(flash, 0, [])
  {
  }
}
