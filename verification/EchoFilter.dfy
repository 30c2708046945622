// The filter that drops the echoed input number before a Y/G value (src/core/rfc2217_proto.c).
module EchoFilter {
  import opened Bytes
  import opened Rfc2217

  const HOLD_MAX := 40
  const LF: byte := 10

  predicate IsDigit(b: byte) { 48 <= b <= 57 }

  predicate IsBlank(b: byte) { b == 32 || b == 13 || b == 10 }

  // ----- Is a line only the number? -----

  // The number so far, -1 before the first digit; or that the line is something else, or above 1000
  datatype Scanned = Other | Number(v: int)

  function Scan(p: seq<byte>): Scanned {
    if p == [] then Number(-1)
    else
      var before, b := Scan(p[..|p| - 1]), p[|p| - 1];
      if before.Other? then Other
      else if IsDigit(b) then
        var v := (if before.v < 0 then 0 else before.v * 10) + (b as int - 48);
        if v > 1000 then Other else Number(v)
      else if IsBlank(b) then before
      else Other
  }

  method LineIsNumber(p: seq<byte>, want: int) returns (r: bool)
    ensures r <==> Scan(p) == Number(want)
  {
    var v := -1;
    for i := 0 to |p|
      invariant Scan(p[..i]) == Number(v)
    {
      assert p[..i + 1][..i] == p[..i];
      ScanMore(p, i);
      if IsDigit(p[i]) {
        v := (if v < 0 then 0 else v * 10) + (p[i] as int - 48);
        if v > 1000 {
          OtherStays(p, i + 1, |p|);
          assert p[..|p|] == p;
          return false;
        }
      } else if !IsBlank(p[i]) {
        OtherStays(p, i + 1, |p|);
        assert p[..|p|] == p;
        return false;
      }
    }
    assert p[..|p|] == p;
    r := v == want;
  }

  lemma ScanMore(p: seq<byte>, i: nat)
    requires i < |p|
    ensures Scan(p[..i]).Other? ==> Scan(p[..i + 1]).Other?
  {
    assert p[..i + 1][..i] == p[..i];
  }

  lemma {:induction false} OtherStays(p: seq<byte>, i: nat, j: nat)
    requires i <= j <= |p| && Scan(p[..i]).Other?
    ensures Scan(p[..j]).Other?
    decreases j - i
  {
    if i < j {
      ScanMore(p, i);
      OtherStays(p, i + 1, j);
    }
  }

  // The digits of a line, read as one decimal number
  function Value(p: seq<byte>): nat {
    if p == [] then 0
    else if IsDigit(p[|p| - 1]) then 10 * Value(p[..|p| - 1]) + (p[|p| - 1] as int - 48)
    else Value(p[..|p| - 1])
  }

  // Only digits, spaces and line ends, at least one digit, and they spell the number
  predicate OnlyNumber(p: seq<byte>, want: nat) {
    && (forall i :: 0 <= i < |p| ==> IsDigit(p[i]) || IsBlank(p[i]))
    && (exists i :: 0 <= i < |p| && IsDigit(p[i]))
    && Value(p) == want
  }

  lemma {:induction false} ScanIsValue(p: seq<byte>)
    ensures Scan(p).Number? <==> (forall i :: 0 <= i < |p| ==> IsDigit(p[i]) || IsBlank(p[i])) && Value(p) <= 1000
    ensures Scan(p).Number? ==>
              Scan(p).v == if exists i :: 0 <= i < |p| && IsDigit(p[i]) then Value(p) else -1
    ensures !(exists i :: 0 <= i < |p| && IsDigit(p[i])) ==> Value(p) == 0
  {
    if p != [] {
      var n := |p| - 1;
      ScanIsValue(p[..n]);
      assert forall i :: 0 <= i < n ==> p[..n][i] == p[i];
      if exists i :: 0 <= i < n && IsDigit(p[..n][i]) {
        var i :| 0 <= i < n && IsDigit(p[..n][i]);
        assert IsDigit(p[i]);
      }
    }
  }

  // The check accepts exactly the lines that are only the number, for every number up to 1000.
  lemma ScanExact(p: seq<byte>, want: nat)
    ensures Scan(p) == Number(want) <==> OnlyNumber(p, want) && want <= 1000
  {
    ScanIsValue(p);
  }

  // ----- The filter, byte by byte -----

  // What the filter remembers: the input asked about (negative when not waiting), and the line being read
  datatype Echo = Echo(input: int, hold: seq<byte>, dropped: nat)

  // The filter after a byte, and what comes out
  function EchoStep(e: Echo, b: byte): (Echo, seq<byte>) {
    if e.input < 0 then (e, [b])
    else
      var line := e.hold + [b];
      if b == LF then
        if Scan(line) == Number(e.input) then (Echo(-1, [], e.dropped + 1), [])
        else (e.(hold := []), line)
      else if |line| == HOLD_MAX then (e.(input := -1, hold := []), line)
      else (e.(hold := line), [])
  }

  function EchoRun(e: Echo, s: seq<byte>): (Echo, seq<byte>) {
    if s == [] then (e, [])
    else
      var (e1, o1) := EchoRun(e, s[..|s| - 1]);
      var (e2, o2) := EchoStep(e1, s[|s| - 1]);
      (e2, o1 + o2)
  }

  class Filter {
    var input: int
    const hold: array<byte>
    var holdLen: nat
    var dropped: nat

    ghost predicate Valid()
      reads this
    {
      hold.Length == HOLD_MAX && holdLen < HOLD_MAX && (input < 0 ==> holdLen == 0)
    }

    ghost function State(): Echo
      requires Valid()
      reads this, hold
    {
      Echo(input, hold[..holdLen], dropped)
    }

    constructor ()
      ensures Valid() && fresh(hold) && State() == Echo(-1, [], 0)
    {
      input, holdLen, dropped := -1, 0, 0;
      hold := new byte[HOLD_MAX](_ => 0);
    }

    // Waits for the echo of this number; whatever was held is forgotten
    method Expect(n: int)
      requires Valid() && n >= 0
      modifies this
      ensures Valid() && State() == Echo(n, [], old(dropped))
    {
      input, holdLen := n, 0;
    }

    // Gives up waiting: what is held goes out
    method Release(out: OutBuffer)
      requires hold.Length == HOLD_MAX && holdLen <= HOLD_MAX && out.Valid() && out.buf != hold
      modifies this, out, out.buf
      ensures Valid() && State() == Echo(-1, [], old(dropped))
      ensures out.Valid() && out.Contents() == Fill(old(out.Contents()), old(hold[..holdLen]), out.buf.Length)
    {
      out.PutAll(hold[..holdLen]);
      holdLen, input := 0, -1;
    }

    method FilterByte(b: byte, out: OutBuffer)
      requires Valid() && out.Valid() && out.buf != hold
      modifies this, hold, out, out.buf
      ensures Valid() && out.Valid()
      ensures var (e, o) := EchoStep(old(State()), b);
              State() == e && out.Contents() == Fill(old(out.Contents()), o, out.buf.Length)
    {
      hide Fill;
      hide Scan;
      FillFill(out.Contents(), [], [], out.buf.Length);
      if input < 0 {
        out.Put(b);
        return;
      }
      hold[holdLen] := b;
      holdLen := holdLen + 1;
      assert hold[..holdLen] == old(hold[..holdLen]) + [b];
      if b == LF {
        var isNumber := LineIsNumber(hold[..holdLen], input);
        if isNumber {
          dropped := dropped + 1;
          holdLen := 0;
          input := -1;
        } else {
          out.PutAll(hold[..holdLen]);
          holdLen := 0;
        }
      } else if holdLen == HOLD_MAX {
        Release(out);
      }
    }

    // Bytes from the switch: what comes out is what running over them all gives, as far as it fits
    method Run(s: seq<byte>, out: OutBuffer)
      requires Valid() && out.Valid() && out.buf != hold
      modifies this, hold, out, out.buf
      ensures Valid() && out.Valid()
      ensures var (e, o) := EchoRun(old(State()), s);
              State() == e && out.Contents() == Fill(old(out.Contents()), o, out.buf.Length)
    {
      hide Fill;
      hide EchoStep;
      FillFill(out.Contents(), [], [], out.buf.Length);
      assert s[..0] == [];
      for i := 0 to |s|
        invariant Valid() && out.Valid()
        invariant var (e, o) := EchoRun(old(State()), s[..i]);
                  State() == e && out.Contents() == Fill(old(out.Contents()), o, out.buf.Length)
      {
        assert s[..i + 1][..i] == s[..i];
        ghost var o := EchoRun(old(State()), s[..i]).1;
        FillFill(old(out.Contents()), o, EchoStep(State(), s[i]).1, out.buf.Length);
        FilterByte(s[i], out);
      }
      assert s[..|s|] == s;
    }
  }

  // ----- The filter, line by line -----

  // Where the first line feed is, or the length
  function LineBreak(s: seq<byte>): (k: nat)
    ensures k <= |s|
  {
    if s == [] || s[0] == LF then 0 else 1 + LineBreak(s[1..])
  }

  lemma {:induction false} LineBreakIs(s: seq<byte>)
    ensures var k := LineBreak(s);
            (k < |s| ==> s[k] == LF) && forall i :: 0 <= i < k ==> s[i] != LF
  {
    if s != [] && s[0] != LF {
      LineBreakIs(s[1..]);
      assert forall i :: 1 <= i < |s| ==> s[i] == s[1..][i - 1];
    }
  }

  // What a wait for number `want` makes of what the switch says: what comes out, what is still held, and
  // whether the wait goes on
  datatype Lines = Lines(out: seq<byte>, held: seq<byte>, waiting: bool, dropped: bool)

  function ByLine(want: nat, s: seq<byte>): Lines
    decreases |s|
  {
    var k := LineBreak(s);
    if k >= HOLD_MAX then Lines(s, [], false, false)
    else if k == |s| then Lines([], s, true, false)
    else if Scan(s[..k + 1]) == Number(want) then Lines(s[k + 1..], [], false, true)
    else
      var rest := ByLine(want, s[k + 1..]);
      rest.(out := s[..k + 1] + rest.out)
  }

  lemma RunLast(e: Echo, s: seq<byte>, b: byte)
    ensures var (e1, o1) := EchoRun(e, s);
            var (e2, o2) := EchoStep(e1, b);
            EchoRun(e, s + [b]) == (e2, o1 + o2)
  {
  }

  lemma RunNone(e: Echo)
    ensures EchoRun(e, []) == (e, [])
  {
  }

  // However what the switch says is cut into reads, the filter ends the same and lets the same out.
  lemma {:induction false} RunConcat(e: Echo, s: seq<byte>, t: seq<byte>)
    ensures var (e1, o1) := EchoRun(e, s);
            var (e2, o2) := EchoRun(e1, t);
            EchoRun(e, s + t) == (e2, o1 + o2)
  {
    hide EchoStep;
    hide EchoRun;
    var (e1, o1) := EchoRun(e, s);
    if t == [] {
      RunNone(e1);
      assert s + t == s && o1 + [] == o1;
    } else {
      var n := |t| - 1;
      RunConcat(e, s, t[..n]);
      RunLast(e, s + t[..n], t[n]);
      RunLast(e1, t[..n], t[n]);
      assert s + t == s + t[..n] + [t[n]] && t == t[..n] + [t[n]];
      var (e2, o2) := EchoRun(e1, t[..n]);
      assert o1 + o2 + EchoStep(e2, t[n]).1 == o1 + (o2 + EchoStep(e2, t[n]).1);
    }
  }

  lemma {:induction false} IdleRun(e: Echo, s: seq<byte>)
    requires e.input < 0
    ensures EchoRun(e, s) == (e, s)
  {
    if s != [] {
      var n := |s| - 1;
      IdleRun(e, s[..n]);
      assert s[..n] + [s[n]] == s;
    }
  }

  // Part of a line is held.
  lemma {:induction false} HoldRun(e: Echo, s: seq<byte>)
    requires e.input >= 0 && e.hold == [] && |s| < HOLD_MAX && forall i :: 0 <= i < |s| ==> s[i] != LF
    ensures EchoRun(e, s) == (e.(hold := s), [])
  {
    if s != [] {
      var n := |s| - 1;
      HoldRun(e, s[..n]);
      assert s[..n] + [s[n]] == s;
      var none: seq<byte> := [];
      assert none + none == none;
    }
  }

  // One line of fewer than 40 bytes before its line feed, or the first 40 bytes of a longer one
  lemma LineRun(e: Echo, s: seq<byte>, b: byte)
    requires e.input >= 0 && e.hold == [] && |s| < HOLD_MAX && forall i :: 0 <= i < |s| ==> s[i] != LF
    ensures EchoRun(e, s + [b]) == EchoStep(e.(hold := s), b)
  {
    hide EchoStep;
    hide EchoRun;
    HoldRun(e, s);
    RunLast(e, s, b);
    assert [] + EchoStep(e.(hold := s), b).1 == EchoStep(e.(hold := s), b).1;
  }

  // 40 bytes without a line feed end the wait.
  lemma LongLineRun(e: Echo, s: seq<byte>)
    requires e.input >= 0 && e.hold == [] && |s| >= HOLD_MAX && forall i :: 0 <= i < HOLD_MAX ==> s[i] != LF
    ensures EchoRun(e, s) == (Echo(-1, [], e.dropped), s)
  {
    hide EchoStep;
    hide EchoRun;
    var a, c, rest := s[..HOLD_MAX - 1], s[HOLD_MAX - 1], s[HOLD_MAX..];
    LineRun(e, a, c);
    LongLineStep(e, a, c);
    IdleRun(Echo(-1, [], e.dropped), rest);
    RunConcat(e, a + [c], rest);
    assert s == a + [c] + rest;
  }

  lemma WholeLineRun(e: Echo, line: seq<byte>)
    requires e.input >= 0 && e.hold == [] && 0 < |line| <= HOLD_MAX && line[|line| - 1] == LF
    requires forall i :: 0 <= i < |line| - 1 ==> line[i] != LF
    ensures EchoRun(e, line) ==
            if Scan(line) == Number(e.input) then (Echo(-1, [], e.dropped + 1), []) else (e, line)
  {
    hide EchoStep;
    hide EchoRun;
    hide Scan;
    var n := |line| - 1;
    assert line == line[..n] + [LF];
    LineRun(e, line[..n], LF);
    LineStep(e, line[..n]);
  }

  // The byte-by-byte filter is the line-by-line one.
  lemma {:induction false} FilterIsByLine(want: nat, dropped: nat, s: seq<byte>)
    ensures var (e, o) := EchoRun(Echo(want, [], dropped), s);
            var lines := ByLine(want, s);
            && o == lines.out && e.hold == lines.held && (e.input >= 0 <==> lines.waiting)
            && (lines.waiting ==> e.input == want)
            && e.dropped == dropped + if lines.dropped then 1 else 0
    decreases |s|
  {
    hide EchoStep;
    hide EchoRun;
    hide Scan;
    var e, k := Echo(want, [], dropped), LineBreak(s);
    LineBreakIs(s);
    if k >= HOLD_MAX {
      LongLineRun(e, s);
    } else if k == |s| {
      HoldRun(e, s);
    } else {
      var line, rest := s[..k + 1], s[k + 1..];
      assert s == line + rest;
      WholeLineRun(e, line);
      RunConcat(e, line, rest);
      if Scan(line) == Number(want) {
        IdleRun(Echo(-1, [], dropped + 1), rest);
        assert [] + rest == rest;
      } else {
        FilterIsByLine(want, dropped, rest);
      }
    }
  }

  lemma LongLineStep(e: Echo, s: seq<byte>, b: byte)
    requires e.input >= 0 && e.hold == [] && |s| == HOLD_MAX - 1 && b != LF
    ensures EchoStep(e.(hold := s), b) == (Echo(-1, [], e.dropped), s + [b])
  {
  }

  lemma LineStep(e: Echo, s: seq<byte>)
    requires e.input >= 0 && e.hold == []
    ensures EchoStep(e.(hold := s), LF) ==
            if Scan(s + [LF]) == Number(e.input) then (Echo(-1, [], e.dropped + 1), []) else (e, s + [LF])
  {
  }

  // ----- What is dropped -----

  // The whole lines of a stream, each with its line feed
  function LinesOf(s: seq<byte>): seq<seq<byte>>
    decreases |s|
  {
    var k := LineBreak(s);
    if k == |s| then [] else [s[..k + 1]] + LinesOf(s[k + 1..])
  }

  function Concat(lines: seq<seq<byte>>): seq<byte> {
    if lines == [] then [] else lines[0] + Concat(lines[1..])
  }

  // What follows the last line feed
  function Tail(s: seq<byte>): seq<byte>
    decreases |s|
  {
    var k := LineBreak(s);
    if k == |s| then s else Tail(s[k + 1..])
  }

  lemma ConcatFirst(line: seq<byte>, lines: seq<seq<byte>>)
    ensures Concat([line] + lines) == line + Concat(lines)
  {
  }

  lemma LineThenLines(line: seq<byte>, lines: seq<seq<byte>>, tail: seq<byte>, rest: seq<byte>)
    requires Concat(lines) + tail == rest
    ensures Concat([line] + lines) + tail == line + rest
  {
  }

  lemma FirstLineOf(s: seq<byte>, k: nat)
    requires k == LineBreak(s) < |s|
    ensures LinesOf(s) == [s[..k + 1]] + LinesOf(s[k + 1..])
  {
    hide LineBreak;
  }

  lemma TailOf(s: seq<byte>, k: nat)
    requires k == LineBreak(s) < |s|
    ensures Tail(s) == Tail(s[k + 1..])
  {
    hide LineBreak;
  }

  lemma NoLines(s: seq<byte>)
    requires LineBreak(s) == |s|
    ensures Concat(LinesOf(s)) == [] && Tail(s) == s
  {
  }

  lemma {:induction false} LinesAndTail(s: seq<byte>)
    ensures Concat(LinesOf(s)) + Tail(s) == s
    decreases |s|
  {
    hide Concat;
    hide LinesOf;
    hide Tail;
    hide LineBreak;
    var k := LineBreak(s);
    if k == |s| {
      NoLines(s);
    } else {
      LinesAndTail(s[k + 1..]);
      FirstLineOf(s, k);
      TailOf(s, k);
      LineThenLines(s[..k + 1], LinesOf(s[k + 1..]), Tail(s), s[k + 1..]);
      assert s == s[..k + 1] + s[k + 1..];
    }
  }

  // Line m is the first that is only the number, and it and all before it have at most 40 bytes
  predicate IsEcho(want: nat, lines: seq<seq<byte>>, m: nat) {
    && m < |lines| && OnlyNumber(lines[m], want) && |lines[m]| <= HOLD_MAX
    && forall j :: 0 <= j < m ==> !OnlyNumber(lines[j], want) && |lines[j]| <= HOLD_MAX
  }

  ghost predicate HasEcho(want: nat, s: seq<byte>) { exists m: nat :: IsEcho(want, LinesOf(s), m) }

  // The lines without line m
  function Without(lines: seq<seq<byte>>, m: nat): seq<seq<byte>>
    requires m < |lines|
  {
    lines[..m] + lines[m + 1..]
  }

  lemma EchoShifts(want: nat, lines: seq<seq<byte>>, m: nat)
    requires lines != [] && !OnlyNumber(lines[0], want) && |lines[0]| <= HOLD_MAX
    ensures IsEcho(want, lines, m + 1) <==> IsEcho(want, lines[1..], m)
    ensures !IsEcho(want, lines, 0)
  {
  }

  // What a wait lets out and holds back. If there is a first line that is only the number, with no line of
  // more than 40 bytes up to it, that line is dropped and every other byte comes out; if not, every byte
  // comes out or is held.
  ghost predicate DropsOneLine(want: nat, s: seq<byte>) {
    var l, lines := ByLine(want, s), LinesOf(s);
    && (l.dropped <==> HasEcho(want, s))
    && (forall m: nat :: IsEcho(want, lines, m) ==> l.held == [] && l.out == Concat(Without(lines, m)) + Tail(s))
    && (!l.dropped ==> l.out + l.held == s)
  }

  lemma NoEcho(want: nat, s: seq<byte>)
    requires var l := ByLine(want, s); !l.dropped && l.out + l.held == s
    requires LinesOf(s) == [] || |LinesOf(s)[0]| > HOLD_MAX
    ensures DropsOneLine(want, s)
  {
  }

  lemma EchoFirst(want: nat, s: seq<byte>, line: seq<byte>, rest: seq<byte>)
    requires LinesOf(s) == [line] + LinesOf(rest) && Tail(s) == Tail(rest)
    requires OnlyNumber(line, want) && |line| <= HOLD_MAX
    requires ByLine(want, s) == Lines(rest, [], false, true)
    ensures DropsOneLine(want, s)
  {
    hide OnlyNumber;
    hide ByLine;
    hide LinesOf;
    hide Tail;
    hide IsEcho;
    forall m: nat
      ensures IsEcho(want, LinesOf(s), m) <==> m == 0
    {
      EchoIsFirst(want, LinesOf(s), m);
    }
    assert IsEcho(want, LinesOf(s), 0);
    assert Without(LinesOf(s), 0) == LinesOf(rest);
    LinesAndTail(rest);
  }

  lemma EchoLater(want: nat, s: seq<byte>, line: seq<byte>, rest: seq<byte>)
    requires LinesOf(s) == [line] + LinesOf(rest) && Tail(s) == Tail(rest) && s == line + rest
    requires !OnlyNumber(line, want) && |line| <= HOLD_MAX
    requires ByLine(want, s) == ByLine(want, rest).(out := line + ByLine(want, rest).out)
    requires DropsOneLine(want, rest)
    ensures DropsOneLine(want, s)
  {
    hide OnlyNumber;
    hide ByLine;
    hide LinesOf;
    hide Tail;
    hide IsEcho;
    hide Concat;
    hide Without;
    var l, before, lines := ByLine(want, s), ByLine(want, rest), LinesOf(s);
    assert lines[1..] == LinesOf(rest);
    forall m: nat
      ensures IsEcho(want, lines, m) <==> m > 0 && IsEcho(want, LinesOf(rest), m - 1)
      ensures IsEcho(want, lines, m) ==> m < |lines|
    {
      EchoShifts(want, lines, if m > 0 then m - 1 else 0);
      if IsEcho(want, lines, m) {
        EchoInLines(want, lines, m);
      }
    }
    if before.dropped {
      var m: nat :| IsEcho(want, LinesOf(rest), m);
      assert IsEcho(want, lines, m + 1);
    }
    forall m: nat | IsEcho(want, lines, m)
      ensures l.held == [] && l.out == Concat(Without(lines, m)) + Tail(s)
    {
      EchoBehind(want, s, line, rest, m, l.out);
    }
    assert line + before.out + before.held == line + (before.out + before.held);
  }

  lemma EchoInLines(want: nat, lines: seq<seq<byte>>, m: nat)
    requires IsEcho(want, lines, m)
    ensures m < |lines|
  {
  }

  // The line-by-line filter drops one line, for a number up to 1000.
  lemma {:induction false} OneLineDropped(want: nat, s: seq<byte>)
    requires want <= 1000
    ensures DropsOneLine(want, s)
    decreases |s|
  {
    hide OnlyNumber;
    hide Scan;
    hide DropsOneLine;
    var k := LineBreak(s);
    if k == |s| {
      NoEcho(want, s);
    } else {
      var line, rest := s[..k + 1], s[k + 1..];
      assert s == line + rest;
      ScanExact(line, want);
      if |line| > HOLD_MAX {
        assert s + [] == s;
        NoEcho(want, s);
      } else if OnlyNumber(line, want) {
        EchoFirst(want, s, line, rest);
      } else {
        OneLineDropped(want, rest);
        EchoLater(want, s, line, rest);
      }
    }
  }

  lemma EchoIsFirst(want: nat, lines: seq<seq<byte>>, m: nat)
    requires lines != [] && OnlyNumber(lines[0], want) && |lines[0]| <= HOLD_MAX
    ensures IsEcho(want, lines, m) <==> m == 0
  {
  }

  lemma EchoBehind(want: nat, s: seq<byte>, line: seq<byte>, rest: seq<byte>, m: nat, out: seq<byte>)
    requires LinesOf(s) == [line] + LinesOf(rest) && Tail(s) == Tail(rest)
    requires m > 0 && m < |LinesOf(s)|
    requires out == line + (Concat(Without(LinesOf(rest), m - 1)) + Tail(rest))
    ensures out == Concat(Without(LinesOf(s), m)) + Tail(s)
  {
    hide LinesOf;
    hide Tail;
    hide Concat;
    assert Without(LinesOf(s), m) == [line] + Without(LinesOf(rest), m - 1);
    ConcatFirst(line, Without(LinesOf(rest), m - 1));
  }

  // The input number a client's command asks about: Y or G and one to three digits; -1 for anything else
  function AskedInput(cmd: seq<byte>): int {
    if 1 < |cmd| < 5 && (cmd[0] == 89 || cmd[0] == 71) && (forall i :: 1 <= i < |cmd| ==> IsDigit(cmd[i]))
    then Value(cmd[1..]) else -1
  }

  lemma {:induction false} ValueBound(p: seq<byte>, n: nat)
    requires |p| <= n <= 3
    ensures Value(p) < if n == 0 then 1 else if n == 1 then 10 else if n == 2 then 100 else 1000
  {
    if p != [] {
      ValueBound(p[..|p| - 1], n - 1);
    }
  }

  // The filter's promise for any command a client can send: while it waits for the answer, what it lets out
  // and holds back is what the switch said without the first line that is only the number asked about.
  lemma AnswerKeepsTheRest(cmd: seq<byte>, dropped: nat, s: seq<byte>)
    requires AskedInput(cmd) >= 0
    ensures var n := AskedInput(cmd);
            var (e, o) := EchoRun(Echo(n, [], dropped), s);
            && (e.dropped != dropped <==> HasEcho(n, s))
            && (e.dropped == dropped ==> o + e.hold == s)
            && (forall m: nat :: IsEcho(n, LinesOf(s), m) ==>
                  e.hold == [] && e.input < 0 && o == Concat(Without(LinesOf(s), m)) + Tail(s))
  {
    hide EchoStep;
    hide OnlyNumber;
    hide LineBreak;
    hide Scan;
    var n := AskedInput(cmd);
    ValueBound(cmd[1..], 3);
    FilterIsByLine(n, dropped, s);
    OneLineDropped(n, s);
    DroppedStops(n, s);
  }

  lemma {:induction false} DroppedStops(want: nat, s: seq<byte>)
    ensures ByLine(want, s).dropped ==> !ByLine(want, s).waiting
    decreases |s|
  {
    hide Scan;
    if LineBreak(s) < |s| {
      DroppedStops(want, s[LineBreak(s) + 1..]);
    }
  }

  // No more comes out of a read than came in with it and was held before.
  lemma {:induction false} OutputBounded(e: Echo, s: seq<byte>)
    ensures |EchoRun(e, s).1| + |EchoRun(e, s).0.hold| <= |s| + |e.hold|
    ensures |e.hold| < HOLD_MAX ==> |EchoRun(e, s).1| < |s| + HOLD_MAX
  {
    hide Scan;
    if s != [] {
      OutputBounded(e, s[..|s| - 1]);
    }
  }

  // ----- Several waits -----

  // What becomes of what the switch says: it comes out, or is the dropped echo of a number, or was held when the
  // next wait began
  datatype Piece = Passed(bytes: seq<byte>) | Dropped(bytes: seq<byte>, number: int) | Forgotten(bytes: seq<byte>)

  function PieceStep(e: Echo, b: byte): seq<Piece> {
    var line := e.hold + [b];
    if e.input < 0 then [Passed([b])]
    else if b == LF then [if Scan(line) == Number(e.input) then Dropped(line, e.input) else Passed(line)]
    else if |line| == HOLD_MAX then [Passed(line)]
    else []
  }

  function PiecesOf(e: Echo, s: seq<byte>): seq<Piece> {
    if s == [] then []
    else PiecesOf(e, s[..|s| - 1]) + PieceStep(EchoRun(e, s[..|s| - 1]).0, s[|s| - 1])
  }

  function AllBytes(ps: seq<Piece>): seq<byte> {
    if ps == [] then [] else AllBytes(ps[..|ps| - 1]) + ps[|ps| - 1].bytes
  }

  function PassedBytes(ps: seq<Piece>): seq<byte> {
    if ps == [] then []
    else PassedBytes(ps[..|ps| - 1]) + (if ps[|ps| - 1].Passed? then ps[|ps| - 1].bytes else [])
  }

  function Drops(ps: seq<Piece>): nat {
    if ps == [] then 0 else Drops(ps[..|ps| - 1]) + (if ps[|ps| - 1].Dropped? then 1 else 0)
  }

  function Losses(ps: seq<Piece>): nat {
    if ps == [] then 0 else Losses(ps[..|ps| - 1]) + (if ps[|ps| - 1].Forgotten? then 1 else 0)
  }

  // A dropped piece is a line of at most 40 bytes that is only its number; a forgotten one is part of a line
  predicate PieceTrue(p: Piece) {
    match p
    case Passed(_) => true
    case Dropped(line, number) => |line| <= HOLD_MAX && number >= 0 && OnlyNumber(line, number)
    case Forgotten(bytes) => |bytes| < HOLD_MAX
  }

  predicate AllTrue(ps: seq<Piece>) { forall i :: 0 <= i < |ps| ==> PieceTrue(ps[i]) }

  lemma PieceMore(ps: seq<Piece>, p: Piece)
    ensures AllBytes(ps + [p]) == AllBytes(ps) + p.bytes
    ensures PassedBytes(ps + [p]) == PassedBytes(ps) + if p.Passed? then p.bytes else []
    ensures Drops(ps + [p]) == Drops(ps) + if p.Dropped? then 1 else 0
    ensures Losses(ps + [p]) == Losses(ps) + if p.Forgotten? then 1 else 0
  {
    assert (ps + [p])[..|ps|] == ps;
  }

  lemma NoPieces()
    ensures AllBytes([]) == [] && PassedBytes([]) == [] && Drops([]) == 0 && Losses([]) == 0
  {
  }

  lemma {:induction false} PiecesJoin(a: seq<Piece>, b: seq<Piece>)
    ensures AllBytes(a + b) == AllBytes(a) + AllBytes(b)
    ensures PassedBytes(a + b) == PassedBytes(a) + PassedBytes(b)
    ensures Drops(a + b) == Drops(a) + Drops(b) && Losses(a + b) == Losses(a) + Losses(b)
    ensures AllTrue(a) && AllTrue(b) ==> AllTrue(a + b)
  {
    hide PieceTrue;
    hide AllBytes;
    hide PassedBytes;
    hide Drops;
    hide Losses;
    if b == [] {
      NoPieces();
      assert a + b == a;
    } else {
      var n := |b| - 1;
      PiecesJoin(a, b[..n]);
      PieceMore(b[..n], b[n]);
      PieceMore(a + b[..n], b[n]);
      assert b[..n] + [b[n]] == b && a + b == a + b[..n] + [b[n]];
    }
  }

  predicate EchoValid(e: Echo) { |e.hold| < HOLD_MAX && (e.input < 0 ==> e.hold == []) }

  function Waiting(e: Echo): nat { if e.input >= 0 then 1 else 0 }

  lemma OnePiece(p: Piece)
    ensures AllBytes([p]) == p.bytes && PassedBytes([p]) == if p.Passed? then p.bytes else []
    ensures Drops([p]) == (if p.Dropped? then 1 else 0) && Losses([p]) == if p.Forgotten? then 1 else 0
  {
    assert [p][..0] == [];
    assert AllBytes([]) == [] && PassedBytes([]) == [];
  }

  lemma PieceStepTrue(e: Echo, b: byte)
    requires EchoValid(e)
    ensures var (e', o), ps := EchoStep(e, b), PieceStep(e, b);
            && EchoValid(e') && AllTrue(ps) && PassedBytes(ps) == o
            && AllBytes(ps) + e'.hold == e.hold + [b]
            && Drops(ps) == e'.dropped - e.dropped && Drops(ps) + Waiting(e') <= Waiting(e) && Losses(ps) == 0
  {
    hide Scan;
    hide OnlyNumber;
    var ps := PieceStep(e, b);
    if ps != [] {
      OnePiece(ps[0]);
      assert ps == [ps[0]];
    }
    if e.input >= 0 {
      ScanExact(e.hold + [b], e.input);
    }
  }

  // A run of what the switch says comes out piece by piece as the filter lets it out.
  lemma {:induction false} PiecesAreRun(e: Echo, s: seq<byte>)
    requires EchoValid(e)
    ensures var (e', o), ps := EchoRun(e, s), PiecesOf(e, s);
            && EchoValid(e') && AllTrue(ps) && PassedBytes(ps) == o && AllBytes(ps) + e'.hold == e.hold + s
            && Drops(ps) == e'.dropped - e.dropped && Drops(ps) + Waiting(e') <= Waiting(e) && Losses(ps) == 0
  {
    hide EchoStep;
    hide PieceStep;
    hide PieceTrue;
    if s != [] {
      var n := |s| - 1;
      PiecesAreRun(e, s[..n]);
      var e1 := EchoRun(e, s[..n]).0;
      PieceStepTrue(e1, s[n]);
      PiecesJoin(PiecesOf(e, s[..n]), PieceStep(e1, s[n]));
      assert s[..n] + [s[n]] == s;
      SaidJoin(AllBytes(PiecesOf(e, s[..n])), e1.hold, AllBytes(PieceStep(e1, s[n])), EchoStep(e1, s[n]).0.hold,
               e.hold, s[..n], [s[n]]);
    } else {
      assert e.hold + s == e.hold;
    }
  }

  // What happens to the filter: a client asks about an input, the switch says something, or the wait runs out
  datatype Act = Expects(n: nat) | Says(bytes: seq<byte>) | GivesUp

  function ActStep(e: Echo, a: Act): (Echo, seq<Piece>) {
    match a
    case Expects(n) => (Echo(n, [], e.dropped), if e.hold == [] then [] else [Forgotten(e.hold)])
    case Says(s) => (EchoRun(e, s).0, PiecesOf(e, s))
    case GivesUp => (Echo(-1, [], e.dropped), if e.hold == [] then [] else [Passed(e.hold)])
  }

  function ActRun(e: Echo, acts: seq<Act>): (Echo, seq<Piece>) {
    if acts == [] then (e, [])
    else
      var (e1, p1) := ActRun(e, acts[..|acts| - 1]);
      var (e2, p2) := ActStep(e1, acts[|acts| - 1]);
      (e2, p1 + p2)
  }

  function Said(acts: seq<Act>): seq<byte> {
    if acts == [] then []
    else Said(acts[..|acts| - 1]) + (if acts[|acts| - 1].Says? then acts[|acts| - 1].bytes else [])
  }

  function Waits(acts: seq<Act>): nat {
    if acts == [] then 0 else Waits(acts[..|acts| - 1]) + (if acts[|acts| - 1].Expects? then 1 else 0)
  }

  lemma ActTrue(e: Echo, a: Act)
    requires EchoValid(e)
    ensures var (e', ps) := ActStep(e, a);
            var said: seq<byte> := if a.Says? then a.bytes else [];
            var asks := if a.Expects? then 1 else 0;
            && EchoValid(e') && AllTrue(ps) && AllBytes(ps) + e'.hold == e.hold + said
            && Drops(ps) == e'.dropped - e.dropped && Drops(ps) + Waiting(e') <= Waiting(e) + asks && Losses(ps) <= asks
  {
    hide OnlyNumber;
    match a {
      case Says(s) => PiecesAreRun(e, s);
      case Expects(n) =>
        OnePiece(Forgotten(e.hold));
        assert e.hold + [] == e.hold;
      case GivesUp =>
        OnePiece(Passed(e.hold));
        assert e.hold + [] == e.hold;
    }
  }

  // Over any sequence of waits, nothing the switch says is lost without account: in order, it is what came out, what
  // was dropped, what a new wait forgot, and what is still held. Each wait drops at most one line, only its number,
  // and forgets at most one part of a line.
  lemma {:induction false} WaitsAccount(e: Echo, acts: seq<Act>)
    requires EchoValid(e)
    ensures var (e', ps) := ActRun(e, acts);
            && EchoValid(e') && AllTrue(ps) && AllBytes(ps) + e'.hold == e.hold + Said(acts)
            && Drops(ps) == e'.dropped - e.dropped
            && Drops(ps) + Waiting(e') <= Waiting(e) + Waits(acts) && Losses(ps) <= Waits(acts)
  {
    hide ActStep;
    hide PieceTrue;
    if acts == [] {
      assert e.hold + [] == e.hold;
    } else {
      var n := |acts| - 1;
      WaitsAccount(e, acts[..n]);
      var (e1, p1) := ActRun(e, acts[..n]);
      ActTrue(e1, acts[n]);
      PiecesJoin(p1, ActStep(e1, acts[n]).1);
      var said: seq<byte> := if acts[n].Says? then acts[n].bytes else [];
      var (e2, p2) := ActStep(e1, acts[n]);
      SaidJoin(AllBytes(p1), e1.hold, AllBytes(p2), e2.hold, e.hold, Said(acts[..n]), said);
    }
  }

  // The numbers a sequence of acts waits for
  function AskedNumbers(acts: seq<Act>): set<int> {
    if acts == [] then {}
    else AskedNumbers(acts[..|acts| - 1]) + (if acts[|acts| - 1].Expects? then {acts[|acts| - 1].n} else {})
  }

  predicate DropsAmong(ps: seq<Piece>, numbers: set<int>) {
    forall i :: 0 <= i < |ps| && ps[i].Dropped? ==> ps[i].number in numbers
  }

  lemma DropsJoin(a: seq<Piece>, b: seq<Piece>, ns: set<int>, ms: set<int>)
    requires DropsAmong(a, ns) && DropsAmong(b, ms) && ns <= ms
    ensures DropsAmong(a + b, ms)
  {
    forall i | 0 <= i < |a + b| && (a + b)[i].Dropped?
      ensures (a + b)[i].number in ms
    {
      assert i < |a| ==> (a + b)[i] == a[i];
      assert i >= |a| ==> (a + b)[i] == b[i - |a|];
    }
  }

  lemma {:induction false} RunDropsInput(e: Echo, s: seq<byte>)
    ensures EchoRun(e, s).0.input in {e.input, -1} && DropsAmong(PiecesOf(e, s), {e.input, -1})
  {
    hide Scan;
    hide EchoRun;
    hide DropsAmong;
    if s == [] {
      RunNone(e);
      DropsNothing({e.input, -1});
    } else {
      var n := |s| - 1;
      RunDropsInput(e, s[..n]);
      RunLast(e, s[..n], s[n]);
      assert s[..n] + [s[n]] == s;
      var e1 := EchoRun(e, s[..n]).0;
      StepDropsInput(e1, s[n], {e.input, -1});
      DropsJoin(PiecesOf(e, s[..n]), PieceStep(e1, s[n]), {e.input, -1}, {e.input, -1});
    }
  }

  lemma DropsNothing(numbers: set<int>)
    ensures DropsAmong([], numbers)
  {
  }

  lemma StepDropsInput(e: Echo, b: byte, numbers: set<int>)
    requires e.input in numbers && -1 in numbers
    ensures EchoStep(e, b).0.input in numbers && DropsAmong(PieceStep(e, b), numbers)
  {
    hide Scan;
  }

  // Only lines for numbers that were waited for are dropped.
  lemma {:induction false} OnlyAskedDropped(e: Echo, acts: seq<Act>)
    ensures var (e', ps) := ActRun(e, acts);
            var numbers := {e.input, -1} + AskedNumbers(acts);
            e'.input in numbers && DropsAmong(ps, numbers)
  {
    hide EchoRun;
    hide PiecesOf;
    if acts != [] {
      var n := |acts| - 1;
      OnlyAskedDropped(e, acts[..n]);
      var (e1, p1) := ActRun(e, acts[..n]);
      if acts[n].Says? {
        RunDropsInput(e1, acts[n].bytes);
      }
      DropsJoin(p1, ActStep(e1, acts[n]).1, {e.input, -1} + AskedNumbers(acts[..n]),
                {e.input, -1} + AskedNumbers(acts));
    }
  }

  lemma SaidJoin(a: seq<byte>, held: seq<byte>, b: seq<byte>, held': seq<byte>, start: seq<byte>, s: seq<byte>,
                 more: seq<byte>)
    requires a + held == start + s && b + held' == held + more
    ensures a + b + held' == start + (s + more)
  {
    assert a + b + held' == a + (b + held') == a + held + more;
  }
}
