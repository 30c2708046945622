// The receive tap: a ring of the last bytes from the switch, with 32-bit counters that never stop
// (src/platform/esp32/main/svs_usb.cpp).
module RxTap {
  import opened Bytes

  const TAP_SIZE := 2048

  // A 32-bit counter that has counted to n
  function Wrap(n: int): nat { n % U32 }

  // Its slot in the ring
  function Slot(n: nat): nat { n % TAP_SIZE }

  // The ring divides the counters' range, so a slot does not change when a counter wraps.
  lemma SlotOfWrapped(n: nat)
    ensures Slot(Wrap(n)) == Slot(n) < TAP_SIZE
  {
  }

  // The difference of two wrapped counters, modulo their range, is the difference of the counts.
  lemma WrappedDifference(a: nat, b: nat)
    requires a <= b < a + U32
    ensures Wrap(Wrap(b) - Wrap(a)) == b - a
    ensures Wrap(a) == Wrap(b) <==> a == b
  {
  }

  lemma WrappedNext(n: nat)
    ensures Wrap(Wrap(n) + 1) == Wrap(n + 1)
  {
  }

  lemma WrappedBack(n: nat, k: nat)
    requires k <= n && k < U32
    ensures Wrap(Wrap(n) - k) == Wrap(n - k)
  {
  }

  // The oldest byte the ring still has
  function Oldest(size: nat): nat { if size > TAP_SIZE then size - TAP_SIZE else 0 }

  // ----- A reader, on the history of all that came -----

  // What happens at the tap, as one reader sees it: bytes come, or it asks for at most `max`
  datatype Event = Came(data: seq<byte>) | Asked(max: nat)

  // Everything that came, where the reader is in it, what it was given, and how many bytes it missed
  datatype Reader = Reader(history: seq<byte>, at: nat, got: seq<byte>, missed: nat)

  function After(r: Reader, e: Event): Reader
    requires r.at <= |r.history|
  {
    match e
    case Came(data) => r.(history := r.history + data)
    case Asked(max) =>
      var start := Max(r.at, Oldest(|r.history|));
      var end := start + Min(max, |r.history| - start);
      r.(at := end, got := r.got + r.history[start..end], missed := r.missed + (start - r.at))
  }

  // ----- The tap -----

  class Tap {
    const ring: array<byte>
    var total: nat
    ghost var history: seq<byte>

    ghost predicate Valid()
      reads this, ring
    {
      && ring.Length == TAP_SIZE
      && total == Wrap(|history|)
      && forall i :: Oldest(|history|) <= i < |history| ==> Slot(i) < TAP_SIZE && ring[Slot(i)] == history[i]
    }

    constructor ()
      ensures Valid() && fresh(ring) && history == []
    {
      ring := new byte[TAP_SIZE](_ => 0);
      total, history := 0, [];
    }

    method AddByte(b: byte)
      requires Valid()
      modifies this, ring
      ensures Valid() && history == old(history) + [b]
    {
      hide Slot;
      hide Wrap;
      SlotOfWrapped(|history|);
      WrappedNext(|history|);
      ring[Slot(total)] := b;
      total := Wrap(total + 1);
      history := history + [b];
      forall i | Oldest(|history|) <= i < |history|
        ensures Slot(i) < TAP_SIZE && ring[Slot(i)] == history[i]
      {
        SameSlot(i, |history| - 1);
      }
    }

    method Add(data: seq<byte>)
      requires Valid()
      modifies this, ring
      ensures Valid() && history == old(history) + data
    {
      for i := 0 to |data|
        invariant Valid() && history == old(history) + data[..i]
      {
        AddByte(data[i]);
      }
    }

    // What a reader has not seen, at most `max` bytes. The reader has its place in the history as a wrapped
    // counter, and what it is given and where it is then are what asking gives it on the history.
    method RxSince(pos: nat, max: nat, ghost r: Reader) returns (pos': nat, out: seq<byte>)
      requires Valid() && r.history == history && r.at <= |history| < r.at + U32 && pos == Wrap(r.at)
      ensures var r' := After(r, Asked(max)); pos' == Wrap(r'.at) && r'.got == r.got + out
      ensures |out| <= max
    {
      hide Slot;
      hide Wrap;
      hide After;
      pos', out := pos, [];
      ghost var at := r.at;
      WrappedDifference(r.at, |history|);
      if Wrap(total - pos') > TAP_SIZE {
        WrappedBack(|history|, TAP_SIZE);
        at := |history| - TAP_SIZE;
        pos' := Wrap(total - TAP_SIZE);
      }
      ghost var start := at;
      WrappedDifference(at, |history|);
      while pos' != total && |out| < max
        invariant start <= at <= |history| && pos' == Wrap(at) && |out| == at - start <= max
        invariant at == |history| <==> pos' == total
        invariant out == history[start..at]
        decreases |history| - at
      {
        SlotOfWrapped(at);
        WrappedNext(at);
        WrappedDifference(at + 1, |history|);
        PiecesJoin(history, history, start, at, at + 1);
        assert history[at..at + 1] == [ring[Slot(pos')]];
        out := out + [ring[Slot(pos')]];
        pos', at := Wrap(pos' + 1), at + 1;
      }
      AskedGives(r, max, start, out);
    }
  }

  lemma AskedGives(r: Reader, max: nat, start: nat, out: seq<byte>)
    requires r.at <= |r.history| && start == Max(r.at, Oldest(|r.history|))
    requires |out| == Min(max, |r.history| - start) && out == r.history[start..start + |out|]
    ensures var r' := After(r, Asked(max)); r'.at == start + |out| && r'.got == r.got + out
  {
  }

  // Two counts less than a ring apart share a slot only if they are equal.
  lemma SameSlot(i: nat, j: nat)
    requires i <= j < i + TAP_SIZE
    ensures Slot(i) == Slot(j) <==> i == j
    ensures Slot(i) < TAP_SIZE
  {
  }

  // ----- A reader over a whole run -----

  function Follow(r: Reader, events: seq<Event>): (r': Reader)
    requires r.at <= |r.history|
    ensures r'.at <= |r'.history| && r.history <= r'.history
  {
    if events == [] then r else After(Follow(r, events[..|events| - 1]), events[|events| - 1])
  }

  // The reader asks before it falls more than a ring behind
  predicate KeepsUp(r: Reader, events: seq<Event>)
    requires r.at <= |r.history|
  {
    events != [] ==>
      var before, e := events[..|events| - 1], events[|events| - 1];
      KeepsUp(r, before) && (e.Asked? ==> Oldest(|Follow(r, before).history|) <= Follow(r, before).at)
  }

  // A piece and the piece behind it, of a history that has grown
  lemma PiecesJoin(before: seq<byte>, after: seq<byte>, a: nat, b: nat, c: nat)
    requires a <= b <= |before| && b <= c <= |after| && before <= after
    ensures before[a..b] + after[b..c] == after[a..c]
  {
  }

  // Asking twice gives what asking once for as much gives, and asking for enough catches up.
  lemma AskedInPieces(r: Reader, a: nat, b: nat)
    requires r.at <= |r.history|
    ensures After(After(r, Asked(a)), Asked(b)) == After(r, Asked(a + b))
    ensures a >= |r.history| ==> After(r, Asked(a)).at == |r.history|
    ensures a > 0 && r.at < |r.history| ==> After(r, Asked(a)).at > r.at
  {
    hide After;
    hide Oldest;
    OldestIsOld(|r.history|);
    AskedIs(r, a);
    AskedIs(r, a + b);
    var r1, r2 := After(r, Asked(a)), After(r, Asked(a + b));
    AskedIs(r1, b);
    var start := Max(r.at, Oldest(|r.history|));
    assert After(r1, Asked(b)).at == r2.at;
    PiecesJoin(r.history, r.history, start, r1.at, r2.at);
    JoinThree(r.got, r.history[start..r1.at], r.history[r1.at..r2.at]);
  }

  lemma AskedIs(r: Reader, max: nat)
    requires r.at <= |r.history|
    ensures var r', start := After(r, Asked(max)), Max(r.at, Oldest(|r.history|));
            && r'.history == r.history && start <= |r.history|
            && r'.at == start + Min(max, |r.history| - start) && r'.missed == r.missed + (start - r.at)
            && r'.got == r.got + r.history[start..r'.at]
  {
  }

  lemma OldestIsOld(size: nat)
    ensures Oldest(size) <= size && (size > 0 ==> Oldest(size) < size)
  {
  }

  lemma JoinThree(a: seq<byte>, b: seq<byte>, c: seq<byte>)
    ensures a + (b + c) == a + b + c
  {
  }

  // Each byte that came since the reader started is given, missed, or still to come; and a reader that
  // keeps up is given every byte exactly once, in order.
  lemma {:induction false} EveryByteOnce(r: Reader, events: seq<Event>)
    requires r.at <= |r.history| && r.got == [] && r.missed == 0
    ensures var r' := Follow(r, events);
            && r'.at - r.at == |r'.got| + r'.missed
            && (r'.missed == 0 <==> KeepsUp(r, events))
            && (KeepsUp(r, events) ==> r'.got == r'.history[r.at..r'.at])
  {
    hide After;
    hide Oldest;
    if events != [] {
      var n := |events| - 1;
      EveryByteOnce(r, events[..n]);
      var before := Follow(r, events[..n]);
      AfterIs(before, events[n]);
      PiecesJoin(before.history, Follow(r, events).history, r.at, before.at, Follow(r, events).at);
    }
  }

  // One event: nothing changes for the reader, or it is given what follows what it misses
  lemma AfterIs(r: Reader, e: Event)
    requires r.at <= |r.history|
    ensures var r' := After(r, e);
            && r.history <= r'.history && r.at <= r'.at <= |r'.history|
            && r'.missed >= r.missed && r.at + (r'.missed - r.missed) <= r'.at
            && r'.got == r.got + r'.history[r.at + (r'.missed - r.missed)..r'.at]
            && (r'.missed == r.missed <==> (e.Asked? ==> Oldest(|r.history|) <= r.at))
  {
  }
}
