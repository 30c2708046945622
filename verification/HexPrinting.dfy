// Printed Intel HEX files are read back, in either style of digits and line ends.
module HexPrinting {
  import opened Bytes
  import opened HexTheorems
  import opened IntelHex

  // Digits from ten on can be capital letters or small ones, and lines can end with a line feed or with a carriage
  // return before it
  datatype Style = Style(small: bool, crlf: bool)

  function HexDigit(n: nat, w: Style): char
    requires n < 16
  {
    if n < 10 then "0123456789"[n] else if w.small then "abcdef"[n - 10] else "ABCDEF"[n - 10]
  }

  function Digits(s: seq<byte>, w: Style): string {
    if s == [] then ""
    else Digits(s[..|s| - 1], w) + [HexDigit(s[|s| - 1] / 16, w), HexDigit(s[|s| - 1] % 16, w)]
  }

  function EndOfLine(w: Style): string { if w.crlf then "\r\n" else "\n" }

  predicate Printable(r: Record) { r.addr < 65536 && |r.data| < 256 }

  // A record's bytes up to its checksum: count, address, type, data
  function Body(r: Record): seq<byte>
    requires Printable(r)
  {
    [|r.data|, r.addr / 256, r.addr % 256, r.kind] + r.data
  }

  function PrintRecord(r: Record, w: Style): string
    requires Printable(r)
  {
    ":" + Digits(Body(r) + [(256 - Sum(Body(r)) % 256) % 256], w)
  }

  lemma {:induction false} DigitsSpell(s: seq<byte>, i: nat, w: Style)
    requires i < |s|
    ensures |Digits(s, w)| == 2 * |s|
    ensures Digits(s, w)[2 * i] == HexDigit(s[i] / 16, w) && Digits(s, w)[2 * i + 1] == HexDigit(s[i] % 16, w)
  {
    var n := |s| - 1;
    if n > 0 {
      DigitsSpell(s[..n], if i < n then i else 0, w);
    }
  }

  lemma NibbleOfDigit(n: nat, w: Style)
    requires n < 16
    ensures Nibble(HexDigit(n, w)) == n
  {
  }

  lemma DigitPair(s: seq<byte>, i: nat, w: Style)
    requires i < |s|
    ensures |Digits(s, w)| == 2 * |s|
    ensures Nibble(Digits(s, w)[2 * i]) == s[i] / 16 && Nibble(Digits(s, w)[2 * i + 1]) == s[i] % 16
  {
    hide Digits;
    hide HexDigit;
    hide Nibble;
    DigitsSpell(s, i, w);
    NibbleOfDigit(s[i] / 16, w);
    NibbleOfDigit(s[i] % 16, w);
  }

  lemma AllAreDigits(s: seq<byte>, w: Style)
    ensures |Digits(s, w)| == 2 * |s|
    ensures forall j :: 0 <= j < |Digits(s, w)| ==> Nibble(Digits(s, w)[j]) >= 0
  {
    hide Digits;
    hide Nibble;
    NoDigits(w);
    if s != [] {
      DigitPair(s, 0, w);
    }
    forall j | 0 <= j < |Digits(s, w)|
      ensures Nibble(Digits(s, w)[j]) >= 0
    {
      DigitPair(s, j / 2, w);
      assert j == 2 * (j / 2) || j == 2 * (j / 2) + 1;
    }
  }

  // The digits of a line after its colon are the digits of the bytes.
  lemma SpelledBytes(s: seq<byte>, n: nat, w: Style)
    requires n <= |s|
    ensures |Digits(s, w)| == 2 * |s|
    ensures AllHex(":" + Digits(s, w), n) && HexBytes(":" + Digits(s, w), n) == s[..n]
  {
    hide Digits;
    hide Nibble;
    var line := ":" + Digits(s, w);
    AllAreDigits(s, w);
    forall i | 0 <= i < n
      ensures AllHex(line, n) && ByteOf(line, i) == s[i]
    {
      DigitPair(s, i, w);
      AfterColon(Digits(s, w), 2 * i);
      AfterColon(Digits(s, w), 2 * i + 1);
    }
  }

  lemma AfterColon(digits: string, j: nat)
    requires j < |digits|
    ensures (":" + digits)[1 + j] == digits[j]
  {
  }

  lemma NoDigits(w: Style)
    ensures Digits([], w) == ""
  {
  }

  lemma PrintedRecord(r: Record, w: Style)
    requires Printable(r)
    ensures ParseLine(PrintRecord(r, w)) == Good(r) && |PrintRecord(r, w)| > 0
    ensures forall j :: 0 <= j < |PrintRecord(r, w)| ==> PrintRecord(r, w)[j] != '\n' && !Blank(PrintRecord(r, w)[j])
  {
    hide Digits;
    hide Sum;
    hide AllHex;
    hide HexBytes;
    hide Nibble;
    var body := Body(r);
    var full := body + [(256 - Sum(body) % 256) % 256];
    SpelledBytes(full, |full|, w);
    AllAreDigits(full, w);
    SumLast(body, full[|full| - 1]);
    assert full[..|full|] == full && full[4..|full| - 1] == r.data;
    forall j | 0 <= j < |Digits(full, w)|
      ensures Digits(full, w)[j] != '\n' && !Blank(Digits(full, w)[j])
    {
      DigitsArePlain(Digits(full, w)[j]);
    }
  }

  const END_RECORD := Record(0, 1, [])

  // Records that can be printed and read: data that fits, and address records of two bytes
  predicate Writable(recs: seq<Record>, base: nat, maxSize: nat) {
    recs != [] ==>
      && Printable(recs[0]) && GoesOn(recs[0], base, maxSize)
      && Writable(recs[1..], NextBase(recs[0], base), maxSize)
  }

  // What the records put where
  function Laid(recs: seq<Record>, base: nat, maxSize: nat): seq<Segment>
    requires Writable(recs, base, maxSize)
  {
    if recs == [] then []
    else
      (if recs[0].kind == 0 then [Segment(base + recs[0].addr, recs[0].data)] else [])
      + Laid(recs[1..], NextBase(recs[0], base), maxSize)
  }

  // The records, one a line, and the end record
  function PrintFile(recs: seq<Record>, base: nat, maxSize: nat, w: Style): string
    requires Writable(recs, base, maxSize)
  {
    if recs == [] then PrintRecord(END_RECORD, w) + EndOfLine(w)
    else PrintRecord(recs[0], w) + EndOfLine(w) + PrintFile(recs[1..], NextBase(recs[0], base), maxSize, w)
  }

  lemma {:induction false} LineEndAt(hex: string, pos: nat, end: nat)
    requires pos <= end <= |hex| && (end < |hex| ==> hex[end] == '\n')
    requires forall j :: pos <= j < end ==> hex[j] != '\n'
    ensures LineEnd(hex, pos) == end
    decreases end - pos
  {
    if pos < end {
      LineEndAt(hex, pos + 1, end);
    }
  }

  lemma TrimReturn(line: string)
    requires Trim(line) == line
    ensures Trim(line + "\r") == line
  {
    assert (line + "\r")[..|line|] == line;
  }

  // A printed record at `pos`, followed by the end of a line, is the line there, and what follows is the next one.
  lemma PrintedLine(hex: string, pos: nat, r: Record, w: Style, rest: string)
    requires Printable(r) && pos <= |hex| && hex[pos..] == PrintRecord(r, w) + EndOfLine(w) + rest
    ensures pos < |hex| && ParseLine(LineAt(hex, pos)) == Good(r)
    ensures pos < Next(hex, pos) <= |hex| && hex[Next(hex, pos)..] == rest
  {
    hide ParseLine;
    hide PrintRecord;
    var line, eol := PrintRecord(r, w), EndOfLine(w);
    PrintedRecord(r, w);
    var end := pos + |line| + |eol| - 1;
    assert forall j :: pos <= j < |hex| ==> hex[j] == hex[pos..][j - pos];
    LineEndAt(hex, pos, end);
    assert Trim(line) == line;
    TrimReturn(line);
    assert hex[pos..end] == line + eol[..|eol| - 1];
    assert eol[..|eol| - 1] == if w.crlf then "\r" else "";
    assert line + "" == line;
  }

  lemma {:induction false} PrintedFrom(recs: seq<Record>, base: nat, hex: string, pos: nat, line: nat, maxSize: nat,
                                       w: Style)
    requires maxSize < U32 && Writable(recs, base, maxSize)
    requires pos <= |hex| && hex[pos..] == PrintFile(recs, base, maxSize, w)
    ensures ReadFrom(hex, pos, line, base, maxSize) == Segments(Laid(recs, base, maxSize))
    decreases |recs|
  {
    hide ParseLine;
    hide PrintRecord;
    hide LineAt;
    hide Next;
    hide EndOfLine;
    if recs == [] {
      assert PrintFile(recs, base, maxSize, w) == PrintRecord(END_RECORD, w) + EndOfLine(w) + "";
      PrintedLine(hex, pos, END_RECORD, w, "");
    } else {
      var r := recs[0];
      var rest, base' := recs[1..], NextBase(r, base);
      PrintedLine(hex, pos, r, w, PrintFile(rest, base', maxSize, w));
      PrintedFrom(rest, base', hex, Next(hex, pos), line + 1, maxSize, w);
      assert [] + Laid(rest, base', maxSize) == Laid(rest, base', maxSize);
    }
  }

  // Any records of the kinds that are read, address records included, printed in either style and decoded, give the
  // image they stand for.
  lemma PrintedFileDecodes(recs: seq<Record>, maxSize: nat, w: Style)
    requires maxSize < U32 && Writable(recs, 0, maxSize)
    ensures Meaning(PrintFile(recs, 0, maxSize, w), maxSize) ==
            var segs := Laid(recs, 0, maxSize); if Top(segs) == 0 then Refused(NoData, 0) else Decoded(ImageOf(segs))
  {
    hide PrintFile;
    hide Laid;
    hide Writable;
    var hex := PrintFile(recs, 0, maxSize, w);
    assert hex[0..] == hex;
    PrintedFrom(recs, 0, hex, 0, 0, maxSize, w);
  }

  // A file with a record that wraps: its one byte is for the last address of all, and the check lets it through
  // for every flash size.
  lemma WrappingFile(maxSize: nat, w: Style)
    requires maxSize < U32
    ensures var upper, data := Record(0, 4, [0xFF, 0xFF]), Record(0xFFFF, 0, [7]);
            var hex := PrintRecord(upper, w) + EndOfLine(w) + (PrintRecord(data, w) + EndOfLine(w));
            Meaning(hex, maxSize) == Unknown(2)
  {
    hide ParseLine;
    hide PrintRecord;
    hide LineAt;
    hide Next;
    hide EndOfLine;
    var upper, data := Record(0, 4, [0xFF, 0xFF]), Record(0xFFFF, 0, [7]);
    var rest := PrintRecord(data, w) + EndOfLine(w);
    var hex := PrintRecord(upper, w) + EndOfLine(w) + rest;
    assert hex[0..] == hex && rest == PrintRecord(data, w) + EndOfLine(w) + "";
    PrintedLine(hex, 0, upper, w, rest);
    PrintedLine(hex, Next(hex, 0), data, w, "");
    assert Word(0xFF, 0xFF) * 65536 == 0xFFFF_0000;
    assert ReadFrom(hex, Next(hex, 0), 1, 0xFFFF_0000, maxSize) == Undefined(2);
  }
}
