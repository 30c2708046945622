// A question typed by a client and the switch's answer to it, which it prefixes with the number asked about
// (src/platform/esp32/main/rfc2217.cpp, src/core/rfc2217_proto.c).
module EchoAnswers {
  import opened Bytes
  import opened ClientRuns
  import opened EchoFilter

  function Decimal(n: nat): seq<byte> { if n < 10 then [48 + n] else Decimal(n / 10) + [48 + n % 10] }

  // Only digits, as many as there are below this power of ten, and they spell the number
  lemma {:induction false} DecimalIs(n: nat)
    requires n < 1000
    ensures var d := Decimal(n);
            && 0 < |d| <= 3 && (n < 100 ==> |d| <= 2) && (n < 10 ==> |d| <= 1)
            && (forall i :: 0 <= i < |d| ==> 48 <= d[i] <= 57) && Value(d) == n
  {
    if n >= 10 {
      DecimalIs(n / 10);
      ValueMore(Decimal(n / 10), 48 + n % 10);
    } else {
      assert [48 + n][..0] == [];
      assert Value([]) == 0;
    }
  }

  lemma ValueMore(d: seq<byte>, b: byte)
    ensures Value(d + [b]) == if 48 <= b <= 57 then 10 * Value(d) + (b as int - 48) else Value(d)
  {
    assert (d + [b])[..|d|] == d;
  }

  // A line that is being typed
  lemma {:induction false} TypingOn(line: seq<byte>, echo: Echo, data: seq<byte>)
    requires |line| + |data| < LINE_SIZE && forall i :: 0 <= i < |data| ==> data[i] != 10
    ensures TypeAll(line, echo, data) == Typing(line + data, echo, [])
  {
    hide Asks;
    hide ActStep;
    if data == [] {
      assert line + data == line;
    } else {
      var n := |data| - 1;
      TypingOn(line, echo, data[..n]);
      assert line + data[..n] + [data[n]] == line + data;
    }
  }

  lemma TypedLine(echo: Echo, data: seq<byte>)
    requires |data| < LINE_SIZE - 1 && forall i :: 0 <= i < |data| ==> data[i] != 10
    requires Asks(data + [10]) >= 0
    ensures TypeAll([], echo, data + [10]) ==
            Typing([], Echo(Asks(data + [10]), [], echo.dropped), [Expects(Asks(data + [10]))])
  {
    hide Asks;
    TypingOn([], echo, data);
    assert [] + data == data && (data + [10])[..|data|] == data;
  }

  lemma NoEndToTrim(s: seq<byte>, ends: seq<byte>)
    requires s != [] && !IsEnd(s[0]) && !IsEnd(s[|s| - 1])
    requires forall i :: 0 <= i < |ends| ==> ends[i] == 13 || ends[i] == 10
    ensures Trimmed(s + ends) == s
  {
    var all := s + ends;
    assert Front(all, 0) == 0;
    BackTo(all, |s|, |all|);
    assert all[0..|s|] == s;
  }

  lemma {:induction false} BackTo(all: seq<byte>, k: nat, end: nat)
    requires 0 < k <= end <= |all| && !IsEnd(all[k - 1]) && forall i :: k <= i < end ==> IsEnd(all[i])
    ensures Back(all, 0, end) == k
    decreases end
  {
    if end > k {
      BackTo(all, k, end - 1);
    }
  }

  // Y (89) or G (71), a number below 1000, and the end of a line, with a carriage return or without: the filter waits
  // for this number.
  lemma TypedIsAsked(letter: byte, n: nat, crlf: bool, echo: Echo)
    requires (letter == 89 || letter == 71) && n < 1000
    ensures var typed := [letter] + Decimal(n) + (if crlf then [13, 10] else [10]);
            var t := TypeAll([], echo, typed);
            t.line == [] && t.echo == Echo(n, [], echo.dropped)
  {
    hide Decimal;
    hide Value;
    var cmd := [letter] + Decimal(n);
    DecimalIs(n);
    assert cmd[1..] == Decimal(n);
    var ends: seq<byte> := if crlf then [13, 10] else [10];
    var data := if crlf then cmd + [13] else cmd;
    assert data + [10] == cmd + ends;
    NoEndToTrim(cmd, ends);
    assert AskedInput(cmd) == n;
    TypedLine(echo, data);
  }

  // The switch answers with the number on a line of its own: that line does not come out, and all the rest does.
  lemma EchoIsDropped(n: nat, dropped: nat, rest: seq<byte>)
    requires n < 1000
    ensures EchoRun(Echo(n, [], dropped), Decimal(n) + [13, 10] + rest) == (Echo(-1, [], dropped + 1), rest)
  {
    hide Decimal;
    hide Value;
    hide Scan;
    hide EchoRun;
    var d, line := Decimal(n), Decimal(n) + [13, 10];
    DecimalIs(n);
    ValueMore(d, 13);
    ValueMore(d + [13], 10);
    assert d + [13] + [10] == line;
    assert IsDigit(line[0]);
    ScanExact(line, n);
    WholeLineRun(Echo(n, [], dropped), line);
    IdleRun(Echo(-1, [], dropped + 1), rest);
    RunConcat(Echo(n, [], dropped), line, rest);
    assert [] + rest == rest;
  }
}
