// Writing an uploaded firmware image into the bridge's inactive slot (ota_apply in
// src/platform/esp32/main/web_server.cpp).
module Ota {
  import opened Bytes
  import opened Options

  const OTA_CHUNK := 16384

  // What the transfer gives for one read: some bytes, the end of the stream, or an error
  datatype ReadResult = Got(bytes: seq<byte>) | Ended | Failed

  // What is asked of the flash, in order, with its answer
  datatype Event = Begin(ok: bool) | Write(bytes: seq<byte>, ok: bool) | Abort | End(ok: bool) | SetBoot(ok: bool)

  datatype Outcome = NoPartition | BadSize | EndedEarly | ConnectionLost | TooSmall | BadHeader
                   | BeginFailed | WriteFailed | Corrupted | BootFailed | Done

  // What the transfer and the flash will do: the answer to each read, write and so on
  datatype World = World(
    hasSlot: bool,
    slotSize: nat,
    supply: (nat, nat) -> ReadResult,
    headerOk: seq<byte> -> bool,
    begins: bool,
    writes: nat -> bool,
    ends: bool,
    boots: bool)

  // The transfer that is read and the slot that is written. The answers are theirs, and every one that
  // the flash gives is in the log.
  class Target {
    const world: World
    var readCount: nat
    var writeCount: nat
    ghost var log: seq<Event>

    constructor (world: World)
      ensures this.world == world && readCount == 0 && writeCount == 0 && log == []
    {
      this.world, readCount, writeCount, log := world, 0, 0, [];
    }

    method Read(want: nat) returns (r: ReadResult)
      modifies this`readCount
      ensures r == world.supply(old(readCount), want) && readCount == old(readCount) + 1
    {
      r := world.supply(readCount, want);
      readCount := readCount + 1;
    }

    method DoBegin() returns (ok: bool)
      modifies this`log
      ensures ok == world.begins && log == old(log) + [Begin(ok)]
    {
      ok := world.begins;
      log := log + [Begin(ok)];
    }

    method DoWrite(bytes: seq<byte>) returns (ok: bool)
      modifies this`log, this`writeCount
      ensures ok == world.writes(old(writeCount)) && writeCount == old(writeCount) + 1
      ensures log == old(log) + [Write(bytes, ok)]
    {
      ok := world.writes(writeCount);
      writeCount := writeCount + 1;
      log := log + [Write(bytes, ok)];
    }

    method DoAbort()
      modifies this`log
      ensures log == old(log) + [Abort]
    {
      log := log + [Abort];
    }

    method DoEnd() returns (ok: bool)
      modifies this`log
      ensures ok == world.ends && log == old(log) + [End(ok)]
    {
      ok := world.ends;
      log := log + [End(ok)];
    }

    method DoSetBoot() returns (ok: bool)
      modifies this`log
      ensures ok == world.boots && log == old(log) + [SetBoot(ok)]
    {
      ok := world.boots;
      log := log + [SetBoot(ok)];
    }
  }

  // ----- What the reads bring -----

  // Reads give at least one byte and at most what is asked
  ghost predicate Honest(w: World) {
    forall i: nat, want: nat :: w.supply(i, want).Got? ==> 0 < |w.supply(i, want).bytes| <= want
  }

  // What is asked for next: what is missing to a whole chunk, or to the whole image
  function Wanted(received: nat, total: nat): nat
    requires received <= total
  {
    Min(OTA_CHUNK - received % OTA_CHUNK, total - received)
  }

  // What the first n reads bring
  ghost function Stream(w: World, total: nat, n: nat): (s: seq<byte>)
    requires Honest(w)
    ensures |s| <= total
  {
    if n == 0 then []
    else
      var before := Stream(w, total, n - 1);
      var got := w.supply(n - 1, Wanted(|before|, total));
      if got.Got? then before + got.bytes else before
  }

  // The answer to read n
  ghost function ReadAt(w: World, total: nat, n: nat): ReadResult
    requires Honest(w)
  {
    w.supply(n, Wanted(|Stream(w, total, n)|, total))
  }

  // ----- What the transfer comes to -----

  function ChunksOf(size: nat): nat { (size + OTA_CHUNK - 1) / OTA_CHUNK }

  // What read n leads to: the end of the transfer, or nothing yet
  ghost function Verdict(w: World, total: nat, headerLen: nat, n: nat): Option<Outcome>
    requires Honest(w)
  {
    var before, got := |Stream(w, total, n)|, ReadAt(w, total, n);
    var after := Stream(w, total, n + 1);
    if got.Ended? then Some(EndedEarly)
    else if got.Failed? then Some(ConnectionLost)
    else if |after| < headerLen then if |after| == total then Some(TooSmall) else None
    else if before < headerLen && !w.headerOk(after[..headerLen]) then Some(BadHeader)
    else if before < headerLen && !w.begins then Some(BeginFailed)
    else if (|after| % OTA_CHUNK == 0 || |after| == total) && !w.writes(before / OTA_CHUNK) then Some(WriteFailed)
    else if |after| < total then None
    else Some(Final(w))
  }

  // The outcome once everything is written
  function Final(w: World): Outcome {
    if !w.ends then Corrupted else if !w.boots then BootFailed else Done
  }

  // What is asked of the flash once everything is written
  function Ending(r: Outcome): seq<Event> {
    if r.Corrupted? then [End(false)] else [End(true), SetBoot(r.Done?)]
  }

  // The transfer comes to read n
  ghost predicate Comes(w: World, total: nat, headerLen: nat, n: nat)
    requires Honest(w)
  {
    forall i :: 0 <= i < n ==> Verdict(w, total, headerLen, i).None?
  }

  // The begin and the first k whole chunks
  function Chunks(s: seq<byte>, k: nat): seq<Event>
    requires k * OTA_CHUNK <= |s|
  {
    if k == 0 then [Begin(true)]
    else Chunks(s, k - 1) + [Write(s[(k - 1) * OTA_CHUNK..k * OTA_CHUNK], true)]
  }

  // The whole chunks and what is left over, which may be nothing
  function InProgress(s: seq<byte>, headerLen: nat): seq<Event> {
    if |s| < headerLen then [] else Chunks(s, |s| / OTA_CHUNK)
  }

  // A write of what follows the first k chunks
  function LastWrite(s: seq<byte>, k: nat, ok: bool): Event
    requires k * OTA_CHUNK <= |s|
  {
    Write(s[k * OTA_CHUNK..], ok)
  }

  // What has been asked of the flash when read n ended the transfer
  ghost function LogOf(w: World, total: nat, headerLen: nat, n: nat, r: Outcome): seq<Event>
    requires Honest(w)
  {
    var before, after := Stream(w, total, n), Stream(w, total, n + 1);
    var k := |before| / OTA_CHUNK;
    StreamGrows(w, total, n);
    match r
    case EndedEarly => if |before| < headerLen then [] else InProgress(before, headerLen) + [Abort]
    case ConnectionLost => if |before| < headerLen then [] else InProgress(before, headerLen) + [Abort]
    case BeginFailed => [Begin(false)]
    case WriteFailed => Chunks(after, k) + [LastWrite(after, k, false)] + [Abort]
    case NoPartition => []
    case BadSize => []
    case TooSmall => []
    case BadHeader => []
    case _ => Chunks(after, k) + [LastWrite(after, k, true)] + Ending(r)
  }

  lemma StreamGrows(w: World, total: nat, n: nat)
    requires Honest(w)
    ensures Stream(w, total, n) <= Stream(w, total, n + 1)
    ensures |Stream(w, total, n)| / OTA_CHUNK * OTA_CHUNK <= |Stream(w, total, n)|
  {
  }

  lemma StreamMore(w: World, total: nat, n: nat)
    requires Honest(w)
    ensures var s, got := Stream(w, total, n), ReadAt(w, total, n);
            if got.Got? then Stream(w, total, n + 1) == s + got.bytes && 0 < |got.bytes| <= Wanted(|s|, total)
            else Stream(w, total, n + 1) == s
  {
  }

  lemma StreamStarts(w: World, total: nat)
    requires Honest(w)
    ensures Stream(w, total, 0) == []
  {
  }

  // The chunks depend on the bytes they hold alone.
  lemma {:induction false} ChunksOfMore(s: seq<byte>, more: seq<byte>, k: nat)
    requires k * OTA_CHUNK <= |s|
    ensures Chunks(s + more, k) == Chunks(s, k)
  {
    if k > 0 {
      ChunksOfMore(s, more, k - 1);
      assert (s + more)[(k - 1) * OTA_CHUNK..k * OTA_CHUNK] == s[(k - 1) * OTA_CHUNK..k * OTA_CHUNK];
    }
  }

  // ----- The transfer -----

  // The buffer holds what has been received and not been written
  ghost predicate SoFar(target: Target, buf: seq<byte>, chunks: nat, received: seq<byte>, started: bool, headerLen: nat)
    reads target
  {
    && target.writeCount == chunks && |received| == chunks * OTA_CHUNK + |buf| && |buf| < OTA_CHUNK
    && buf == received[chunks * OTA_CHUNK..]
    && (started <==> |received| >= headerLen)
    && target.log == (if started then Chunks(received, chunks) else [])
  }

  // Once the headers have come they are checked, and only then does the update begin
  method CheckHeaders(target: Target, buf: seq<byte>, remaining: nat, headerLen: nat)
    returns (v: Option<Outcome>, started: bool)
    modifies target`log
    ensures started <==> |buf| >= headerLen && target.world.headerOk(buf[..headerLen]) && target.world.begins
    ensures v == if |buf| < headerLen then if remaining == 0 then Some(TooSmall) else None
                 else if !target.world.headerOk(buf[..headerLen]) then Some(BadHeader)
                 else if !target.world.begins then Some(BeginFailed) else None
    ensures target.log == old(target.log) +
              if started then [Begin(true)] else if v == Some(BeginFailed) then [Begin(false)] else []
  {
    if |buf| < headerLen && remaining > 0 {
      return None, false;
    }
    if |buf| < headerLen {
      return Some(TooSmall), false;
    }
    if !target.world.headerOk(buf[..headerLen]) {
      return Some(BadHeader), false;
    }
    started := target.DoBegin();
    v := if started then None else Some(BeginFailed);
  }

  // Has the whole image verified and switches the boot slot
  method Finish(target: Target) returns (r: Outcome)
    modifies target`log
    ensures r == Final(target.world) && target.log == old(target.log) + Ending(r)
  {
    var ok := target.DoEnd();
    if !ok {
      return Corrupted;
    }
    ok := target.DoSetBoot();
    r := if ok then Done else BootFailed;
  }

  // Reads, checks the headers, begins, writes in whole chunks and switches the boot slot. The outcome is
  // the verdict on the last read made, and what was asked of the flash is exactly what belongs to it.
  method Transfer(target: Target, total: nat, headerLen: nat) returns (r: Outcome)
    requires Honest(target.world) && 0 < headerLen <= OTA_CHUNK && total > 0
    requires target.readCount == 0 && target.writeCount == 0 && target.log == []
    modifies target
    ensures var w, n := target.world, target.readCount - 1;
            && n >= 0 && Comes(w, total, headerLen, n) && Verdict(w, total, headerLen, n) == Some(r)
            && target.log == LogOf(w, total, headerLen, n, r)
  {
    hide Stream;
    hide Honest;
    hide Chunks;
    hide Verdict;
    hide LogOf;
    hide Comes;
    var w := target.world;
    StreamStarts(w, total);
    ComesFirst(w, total, headerLen);
    var buf: seq<byte> := [];
    var started, remaining := false, total;
    ghost var received: seq<byte>, chunks: nat := [], 0;
    while remaining > 0
      invariant remaining > 0 && |received| + remaining == total
      invariant received == Stream(w, total, target.readCount) && Comes(w, total, headerLen, target.readCount)
      invariant SoFar(target, buf, chunks, received, started, headerLen)
      decreases remaining
    {
      ghost var n := target.readCount;
      var want := Min(OTA_CHUNK - |buf|, remaining);
      DivUnique(|received|, OTA_CHUNK, chunks, |buf|);
      StreamMore(w, total, n);
      ComesMore(w, total, headerLen, n);
      var got := target.Read(want);
      if !got.Got? {
        VerdictOnNothing(w, total, headerLen, n);
        if started {
          target.DoAbort();
        }
        return if got.Ended? then EndedEarly else ConnectionLost;
      }
      Received(received, got.bytes, chunks, buf);
      buf, remaining := buf + got.bytes, remaining - |got.bytes|;
      received := received + got.bytes;
      if !started {
        VerdictOnHeaders(w, total, headerLen, n);
        var v;
        v, started := CheckHeaders(target, buf, remaining, headerLen);
        NoChunks(received);
        if v.Some? {
          return v.value;
        }
        if !started {
          continue;
        }
      }
      VerdictOnChunk(w, total, headerLen, n);
      if |buf| == OTA_CHUNK || remaining == 0 {
        var ok := target.DoWrite(buf);
        if !ok {
          target.DoAbort();
          return WriteFailed;
        }
        if remaining == 0 {
          break;
        }
        NextChunk(received, chunks);
        buf, chunks := [], chunks + 1;
      }
    }
    r := Finish(target);
  }

  // A read that brings nothing
  lemma VerdictOnNothing(w: World, total: nat, headerLen: nat, n: nat)
    requires Honest(w) && !ReadAt(w, total, n).Got?
    ensures var before, r := Stream(w, total, n), if ReadAt(w, total, n).Ended? then EndedEarly else ConnectionLost;
            && Verdict(w, total, headerLen, n) == Some(r)
            && LogOf(w, total, headerLen, n, r) ==
               if |before| < headerLen then [] else Chunks(before, |before| / OTA_CHUNK) + [Abort]
  {
    hide Stream;
    hide Chunks;
  }

  // A read before the begin that brings too little for it, or what does not pass
  lemma VerdictOnHeaders(w: World, total: nat, headerLen: nat, n: nat)
    requires Honest(w) && ReadAt(w, total, n).Got? && |Stream(w, total, n)| < headerLen
    ensures var after, v := Stream(w, total, n + 1), Verdict(w, total, headerLen, n);
            if |after| < headerLen then v == if |after| == total then Some(TooSmall) else None
            else if !w.headerOk(after[..headerLen]) then v == Some(BadHeader)
            else !w.begins ==> v == Some(BeginFailed)
    ensures LogOf(w, total, headerLen, n, TooSmall) == [] == LogOf(w, total, headerLen, n, BadHeader)
    ensures LogOf(w, total, headerLen, n, BeginFailed) == [Begin(false)]
  {
    hide Stream;
    hide Chunks;
    StreamGrows(w, total, n);
  }

  // A read after the begin, or with it
  lemma VerdictOnChunk(w: World, total: nat, headerLen: nat, n: nat)
    requires Honest(w) && ReadAt(w, total, n).Got?
    requires var before, after := |Stream(w, total, n)|, Stream(w, total, n + 1);
             |after| >= headerLen && (before < headerLen ==> w.headerOk(after[..headerLen]) && w.begins)
    ensures var after, k := Stream(w, total, n + 1), |Stream(w, total, n)| / OTA_CHUNK;
            && k * OTA_CHUNK <= |after|
            && Verdict(w, total, headerLen, n) ==
               (if (|after| % OTA_CHUNK == 0 || |after| == total) && !w.writes(k) then Some(WriteFailed)
                else if |after| < total then None else Some(Final(w)))
            && LogOf(w, total, headerLen, n, WriteFailed) == Chunks(after, k) + [LastWrite(after, k, false)] + [Abort]
            && LogOf(w, total, headerLen, n, Final(w)) ==
               Chunks(after, k) + [LastWrite(after, k, true)] + Ending(Final(w))
  {
    hide Stream;
    hide Chunks;
    StreamGrows(w, total, n);
  }

  // Bytes that come to those in the buffer
  lemma Received(received: seq<byte>, more: seq<byte>, chunks: nat, buf: seq<byte>)
    requires |received| == chunks * OTA_CHUNK + |buf| && buf == received[chunks * OTA_CHUNK..]
    requires 0 < |buf + more| <= OTA_CHUNK
    ensures buf + more == (received + more)[chunks * OTA_CHUNK..]
    ensures Chunks(received + more, chunks) == Chunks(received, chunks)
    ensures |received + more| % OTA_CHUNK == 0 <==> |buf + more| == OTA_CHUNK
  {
    hide Chunks;
    ChunksOfMore(received, more, chunks);
    BufferIs(received + more, chunks, buf + more);
  }

  lemma ComesFirst(w: World, total: nat, headerLen: nat)
    requires Honest(w)
    ensures Comes(w, total, headerLen, 0)
  {
  }

  lemma ComesMore(w: World, total: nat, headerLen: nat, n: nat)
    requires Honest(w)
    ensures Comes(w, total, headerLen, n + 1)
            <==> Comes(w, total, headerLen, n) && Verdict(w, total, headerLen, n).None?
  {
    hide Verdict;
  }

  lemma NoChunks(s: seq<byte>)
    ensures Chunks(s, 0) == [Begin(true)]
  {
  }

  lemma NextChunk(s: seq<byte>, k: nat)
    requires |s| == (k + 1) * OTA_CHUNK
    ensures Chunks(s, k + 1) == Chunks(s, k) + [Write(s[k * OTA_CHUNK..], true)]
  {
    assert s[k * OTA_CHUNK..(k + 1) * OTA_CHUNK] == s[k * OTA_CHUNK..];
  }

  lemma BufferIs(received: seq<byte>, chunks: nat, buf: seq<byte>)
    requires |received| == chunks * OTA_CHUNK + |buf| && |buf| <= OTA_CHUNK
    ensures |received| % OTA_CHUNK == 0 <==> |buf| == 0 || |buf| == OTA_CHUNK
    ensures |buf| < OTA_CHUNK ==> |received| / OTA_CHUNK == chunks
  {
    DivUnique(|received|, OTA_CHUNK, chunks, if |buf| < OTA_CHUNK then |buf| else 0);
    DivUnique(|received|, OTA_CHUNK, chunks + 1, 0);
  }

  // ----- When a transfer succeeds, and what it has then written -----

  // The first n reads bring bytes
  ghost predicate AllGot(w: World, total: nat, n: nat)
    requires Honest(w)
  {
    forall i :: 0 <= i < n ==> ReadAt(w, total, i).Got?
  }

  // The first k writes work
  ghost predicate AllWrite(w: World, k: nat) { forall i :: 0 <= i < k ==> w.writes(i) }

  // Every read brings bytes until the image is whole, and everything after that works
  ghost predicate Succeeds(w: World, total: nat, headerLen: nat)
    requires Honest(w)
  {
    && headerLen <= total && w.begins && AllWrite(w, ChunksOf(total)) && w.ends && w.boots
    && exists n: nat :: WholeAfter(w, total, headerLen, n)
  }

  // The first n reads bring the whole image, and its headers pass
  ghost predicate WholeAfter(w: World, total: nat, headerLen: nat, n: nat)
    requires Honest(w)
  {
    && n > 0 && AllGot(w, total, n)
    && var all := Stream(w, total, n); |all| == total && headerLen <= |all| && w.headerOk(all[..headerLen])
  }

  lemma {:induction false} StreamPrefix(w: World, total: nat, i: nat, n: nat)
    requires Honest(w) && i <= n
    ensures Stream(w, total, i) <= Stream(w, total, n)
    decreases n - i
  {
    if i < n {
      StreamGrows(w, total, i);
      StreamPrefix(w, total, i + 1, n);
    }
  }

  lemma NextChunkCount(before: nat, after: nat, total: nat)
    requires before < after <= total && after <= before + (OTA_CHUNK - before % OTA_CHUNK)
    ensures after % OTA_CHUNK == 0 <==> after / OTA_CHUNK == before / OTA_CHUNK + 1
    ensures after % OTA_CHUNK != 0 ==> after / OTA_CHUNK == before / OTA_CHUNK
    ensures after == total ==> ChunksOf(total) == before / OTA_CHUNK + 1
    ensures before / OTA_CHUNK < ChunksOf(total)
  {
    var q, r, d := before / OTA_CHUNK, before % OTA_CHUNK, after - before;
    if r + d == OTA_CHUNK {
      DivUnique(after, OTA_CHUNK, q + 1, 0);
      DivUnique(after + OTA_CHUNK - 1, OTA_CHUNK, q + 1, OTA_CHUNK - 1);
    } else {
      DivUnique(after, OTA_CHUNK, q, r + d);
      DivUnique(after + OTA_CHUNK - 1, OTA_CHUNK, q + 1, r + d - 1);
    }
  }

  // A transfer that comes to read n has had bytes from every read, has passed the headers once they were
  // in, and has written every whole chunk.
  lemma {:induction false} ComingMeans(w: World, total: nat, headerLen: nat, n: nat)
    requires Honest(w) && Comes(w, total, headerLen, n) && total > 0 && 0 < headerLen <= OTA_CHUNK
    ensures AllGot(w, total, n) && |Stream(w, total, n)| < total
    ensures var s := Stream(w, total, n);
            |s| >= headerLen ==> w.headerOk(s[..headerLen]) && w.begins && AllWrite(w, |s| / OTA_CHUNK)
  {
    hide Stream;
    if n == 0 {
      StreamStarts(w, total);
    } else {
      ComesMore(w, total, headerLen, n - 1);
      ComingMeans(w, total, headerLen, n - 1);
      StreamMore(w, total, n - 1);
      var before, after := Stream(w, total, n - 1), Stream(w, total, n);
      if ReadAt(w, total, n - 1).Got? {
        NextChunkCount(|before|, |after|, total);
        assert |before| >= headerLen ==> after[..headerLen] == before[..headerLen];
      }
    }
  }

  // A transfer that read n ends succeeds if and only if every read until the image is whole brings bytes,
  // the headers pass, and the begin, every write, the end and the boot switch work.
  lemma DoneExact(w: World, total: nat, headerLen: nat, n: nat)
    requires Honest(w) && Comes(w, total, headerLen, n) && Verdict(w, total, headerLen, n).Some?
    requires total > 0 && 0 < headerLen <= OTA_CHUNK
    ensures Verdict(w, total, headerLen, n) == Some(Done) <==> Succeeds(w, total, headerLen)
  {
    hide Stream;
    ComingMeans(w, total, headerLen, n);
    StreamMore(w, total, n);
    var before, after := Stream(w, total, n), Stream(w, total, n + 1);
    if ReadAt(w, total, n).Got? {
      NextChunkCount(|before|, |after|, total);
      assert |before| >= headerLen ==> after[..headerLen] == before[..headerLen];
    }
    if Verdict(w, total, headerLen, n) == Some(Done) {
      assert WholeAfter(w, total, headerLen, n + 1);
    }
    if Succeeds(w, total, headerLen) {
      var m: nat :| WholeAfter(w, total, headerLen, m);
      if m <= n {
        StreamPrefix(w, total, m, n);
      } else {
        StreamPrefix(w, total, n + 1, m);
        assert ReadAt(w, total, n).Got?;
        var all := Stream(w, total, m);
        assert |after| >= headerLen ==> after[..headerLen] == all[..headerLen];
      }
    }
  }

  // Only one read can end a transfer, with one outcome.
  lemma OneEnd(w: World, total: nat, headerLen: nat, m: nat, n: nat)
    requires Honest(w) && Comes(w, total, headerLen, m) && Verdict(w, total, headerLen, m).Some?
    requires Comes(w, total, headerLen, n) && Verdict(w, total, headerLen, n).Some?
    ensures m == n
  {
    hide Verdict;
  }

  // What the writes that worked wrote
  function Written(log: seq<Event>): seq<byte> {
    if log == [] then []
    else
      var e := log[|log| - 1];
      if e.Write? && e.ok then Written(log[..|log| - 1]) + e.bytes else Written(log[..|log| - 1])
  }

  function Aborts(log: seq<Event>): nat {
    if log == [] then 0 else Aborts(log[..|log| - 1]) + if log[|log| - 1].Abort? then 1 else 0
  }

  lemma LogMore(log: seq<Event>, e: Event)
    ensures Written(log + [e]) == if e.Write? && e.ok then Written(log) + e.bytes else Written(log)
    ensures Aborts(log + [e]) == Aborts(log) + if e.Abort? then 1 else 0
  {
    assert (log + [e])[..|log|] == log;
  }

  lemma {:induction false} ChunksWritten(s: seq<byte>, k: nat)
    requires k * OTA_CHUNK <= |s|
    ensures Written(Chunks(s, k)) == s[..k * OTA_CHUNK] && Aborts(Chunks(s, k)) == 0
    ensures |Chunks(s, k)| == k + 1 && Chunks(s, k)[0] == Begin(true)
  {
    hide Written;
    hide Aborts;
    if k == 0 {
      NothingWritten();
      LogMore([], Begin(true));
      assert [] + [Begin(true)] == [Begin(true)];
    } else {
      ChunksWritten(s, k - 1);
      LogMore(Chunks(s, k - 1), Write(s[(k - 1) * OTA_CHUNK..k * OTA_CHUNK], true));
      NextBytes(s, (k - 1) * OTA_CHUNK, k * OTA_CHUNK);
    }
  }

  lemma NextBytes(s: seq<byte>, a: nat, b: nat)
    requires a <= b <= |s|
    ensures s[..a] + s[a..b] == s[..b]
  {
  }

  lemma AbortedLog(s: seq<byte>, k: nat)
    requires k * OTA_CHUNK <= |s|
    ensures var log := Chunks(s, k) + [Abort];
            Written(log) == s[..k * OTA_CHUNK] && Aborts(log) == 1 && SetBoot(true) !in log && log[0] == Begin(true)
  {
    hide Chunks;
    ChunksWritten(s, k);
    NoBoot(s, k);
    LogMore(Chunks(s, k), Abort);
  }

  lemma FailedLog(s: seq<byte>, k: nat)
    requires k * OTA_CHUNK <= |s|
    ensures var log := Chunks(s, k) + [LastWrite(s, k, false)] + [Abort];
            Written(log) == s[..k * OTA_CHUNK] && Aborts(log) == 1 && SetBoot(true) !in log && log[0] == Begin(true)
  {
    hide Chunks;
    ChunksWritten(s, k);
    NoBoot(s, k);
    LogMore(Chunks(s, k), LastWrite(s, k, false));
    LogMore(Chunks(s, k) + [LastWrite(s, k, false)], Abort);
  }

  lemma FinalLog(s: seq<byte>, k: nat, r: Outcome)
    requires k * OTA_CHUNK <= |s|
    ensures var log := Chunks(s, k) + [LastWrite(s, k, true)] + Ending(r);
            && Written(log) == s && Aborts(log) == 0 && log[0] == Begin(true)
            && (SetBoot(true) in log <==> r.Done?)
            && (r.Done? ==> log[|log| - 2] == End(true))
  {
    hide Chunks;
    ChunksWritten(s, k);
    NoBoot(s, k);
    var end := Chunks(s, k) + [LastWrite(s, k, true)];
    assert s[..k * OTA_CHUNK] + s[k * OTA_CHUNK..] == s;
    LogMore(Chunks(s, k), LastWrite(s, k, true));
    if r.Corrupted? {
      LogMore(end, End(false));
    } else {
      LogMore(end, End(true));
      LogMore(end + [End(true)], SetBoot(r.Done?));
      assert end + Ending(r) == end + [End(true)] + [SetBoot(r.Done?)];
      assert SetBoot(r.Done?) == (end + Ending(r))[|end| + 1];
    }
  }

  // The log of a transfer: what was written is a start of what was received, and all of it once the end is
  // asked for; a read or a write that failed after the begin was followed by one abort, anything else by
  // none; nothing was begun before the headers passed; and the boot slot was switched only after all was
  // written and the end had worked.
  lemma LogConserves(w: World, total: nat, headerLen: nat, n: nat, r: Outcome)
    requires Honest(w) && Comes(w, total, headerLen, n) && Verdict(w, total, headerLen, n) == Some(r)
    requires total > 0 && 0 < headerLen <= OTA_CHUNK
    ensures var log, received := LogOf(w, total, headerLen, n, r), Stream(w, total, n + 1);
            && Written(log) <= received
            && Aborts(log) == (if r.WriteFailed? || ((r.EndedEarly? || r.ConnectionLost?) && log != []) then 1 else 0)
            && (log != [] ==> |received| >= headerLen && w.headerOk(received[..headerLen]))
            && (log != [] && log != [Begin(false)] ==> log[0] == Begin(true))
            && (r.Corrupted? || r.BootFailed? || r.Done? ==> Written(log) == received && |received| == total)
            && (SetBoot(true) in log ==> r.Done? && log[|log| - 2] == End(true))
  {
    hide Stream;
    hide Chunks;
    hide LogOf;
    hide Ending;
    hide Written;
    hide Aborts;
    hide Verdict;
    ComingMeans(w, total, headerLen, n);
    StreamMore(w, total, n);
    StreamGrows(w, total, n);
    var before, after := Stream(w, total, n), Stream(w, total, n + 1);
    var k := |before| / OTA_CHUNK;
    NothingWritten();
    if !ReadAt(w, total, n).Got? {
      VerdictOnNothing(w, total, headerLen, n);
      AbortedLog(before, k);
    } else {
      assert |before| >= headerLen ==> after[..headerLen] == before[..headerLen];
      if |before| < headerLen {
        VerdictOnHeaders(w, total, headerLen, n);
      }
      if |after| >= headerLen && (|before| < headerLen ==> w.headerOk(after[..headerLen]) && w.begins) {
        VerdictOnChunk(w, total, headerLen, n);
        FailedLog(after, k);
        FinalLog(after, k, Final(w));
      }
    }
  }

  lemma NothingWritten()
    ensures Written([]) == [] && Aborts([]) == 0 && Written([Begin(false)]) == [] && Aborts([Begin(false)]) == 0
  {
    LogMore([], Begin(false));
  }

  lemma {:induction false} NoBoot(s: seq<byte>, k: nat)
    requires k * OTA_CHUNK <= |s|
    ensures SetBoot(true) !in Chunks(s, k)
  {
    if k > 0 {
      NoBoot(s, k - 1);
    }
  }

  // What each outcome says of the transfer: the read that ends it was the first to fail, or brought the end of the
  // image too soon, the headers that do not pass, or the bytes after which a step failed.
  lemma OutcomeMeans(w: World, total: nat, headerLen: nat, n: nat, r: Outcome)
    requires Honest(w) && Comes(w, total, headerLen, n) && Verdict(w, total, headerLen, n) == Some(r)
    requires total > 0 && 0 < headerLen <= OTA_CHUNK
    ensures var got, received := ReadAt(w, total, n), Stream(w, total, n + 1);
            && AllGot(w, total, n)
            && (r.EndedEarly? <==> got.Ended?) && (r.ConnectionLost? <==> got.Failed?)
            && (r.TooSmall? <==> got.Got? && |received| == total < headerLen)
            && (got.Got? && !r.TooSmall? ==> |received| >= headerLen)
            && (r.BadHeader? <==> got.Got? && |received| >= headerLen && !w.headerOk(received[..headerLen]))
            && (r.BeginFailed? ==> !w.begins) && (r.WriteFailed? ==> !AllWrite(w, |received| / OTA_CHUNK + 1))
            && (r.Corrupted? ==> !w.ends) && (r.BootFailed? ==> w.ends && !w.boots)
            && (r.Corrupted? || r.BootFailed? || r.Done? ==>
                  |received| == total && w.headerOk(received[..headerLen]) && w.begins && AllWrite(w, ChunksOf(total)))
  {
    hide Stream;
    ComingMeans(w, total, headerLen, n);
    StreamMore(w, total, n);
    var before, after := Stream(w, total, n), Stream(w, total, n + 1);
    if ReadAt(w, total, n).Got? {
      NextChunkCount(|before|, |after|, total);
      assert |before| >= headerLen ==> after[..headerLen] == before[..headerLen];
    }
  }

  // Every write is of at least a byte and at most a chunk, and every write but the last is a whole chunk
  predicate WholeWrites(log: seq<Event>) {
    && (forall i :: 0 <= i < |log| && log[i].Write? ==> 0 < |log[i].bytes| <= OTA_CHUNK)
    && (forall i, j :: 0 <= i < j < |log| && log[i].Write? && log[j].Write? ==> |log[i].bytes| == OTA_CHUNK)
  }

  lemma {:induction false} ChunksAreWhole(s: seq<byte>, k: nat)
    requires k * OTA_CHUNK <= |s|
    ensures |Chunks(s, k)| == k + 1 && !Chunks(s, k)[0].Write?
    ensures forall i :: 1 <= i <= k ==> Chunks(s, k)[i].Write? && |Chunks(s, k)[i].bytes| == OTA_CHUNK
  {
    if k > 0 {
      ChunksAreWhole(s, k - 1);
    }
  }

  // Whole chunks, one more write, and what is no write
  lemma WholeThenLast(s: seq<byte>, k: nat, ok: bool, rest: seq<Event>)
    requires k * OTA_CHUNK < |s| <= k * OTA_CHUNK + OTA_CHUNK
    requires forall i :: 0 <= i < |rest| ==> !rest[i].Write?
    ensures WholeWrites(Chunks(s, k) + [LastWrite(s, k, ok)] + rest)
  {
    hide Chunks;
    ChunksAreWhole(s, k);
    assert |LastWrite(s, k, ok).bytes| == |s| - k * OTA_CHUNK;
  }

  lemma WholeThenAbort(s: seq<byte>, k: nat)
    requires k * OTA_CHUNK <= |s|
    ensures WholeWrites(Chunks(s, k) + [Abort])
  {
    hide Chunks;
    ChunksAreWhole(s, k);
  }

  // However a transfer ends, all it has written but the last of it was written in whole chunks.
  lemma WholeChunks(w: World, total: nat, headerLen: nat, n: nat, r: Outcome)
    requires Honest(w) && Comes(w, total, headerLen, n) && Verdict(w, total, headerLen, n) == Some(r)
    requires total > 0 && 0 < headerLen <= OTA_CHUNK
    ensures WholeWrites(LogOf(w, total, headerLen, n, r))
  {
    hide Stream;
    hide Chunks;
    hide LogOf;
    hide Verdict;
    ComingMeans(w, total, headerLen, n);
    StreamMore(w, total, n);
    StreamGrows(w, total, n);
    var before, after := Stream(w, total, n), Stream(w, total, n + 1);
    var k := |before| / OTA_CHUNK;
    if !ReadAt(w, total, n).Got? {
      VerdictOnNothing(w, total, headerLen, n);
      WholeThenAbort(before, k);
    } else {
      assert |before| >= headerLen ==> after[..headerLen] == before[..headerLen];
      if |before| < headerLen {
        VerdictOnHeaders(w, total, headerLen, n);
      }
      if |after| >= headerLen && (|before| < headerLen ==> w.headerOk(after[..headerLen]) && w.begins) {
        VerdictOnChunk(w, total, headerLen, n);
        DivUnique(|before|, OTA_CHUNK, k, |before| % OTA_CHUNK);
        WholeThenLast(after, k, false, [Abort]);
        WholeThenLast(after, k, true, Ending(Final(w)));
      }
    }
  }

  // ----- The whole update -----

  method Apply(target: Target, total: nat, headerLen: nat) returns (r: Outcome)
    requires Honest(target.world) && 0 < headerLen <= OTA_CHUNK
    requires target.readCount == 0 && target.writeCount == 0 && target.log == []
    modifies target
    ensures r.NoPartition? <==> !target.world.hasSlot
    ensures r.BadSize? <==> target.world.hasSlot && !(0 < total <= target.world.slotSize)
    ensures r.NoPartition? || r.BadSize? ==> target.readCount == 0 && target.log == []
    ensures !r.NoPartition? && !r.BadSize? ==>
              var w, n := target.world, target.readCount - 1;
              && n >= 0 && Comes(w, total, headerLen, n) && Verdict(w, total, headerLen, n) == Some(r)
              && target.log == LogOf(w, total, headerLen, n, r)
    ensures r.Done? <==>
              target.world.hasSlot && 0 < total <= target.world.slotSize && Succeeds(target.world, total, headerLen)
    ensures r.Done? ==> Written(target.log) == Stream(target.world, total, target.readCount)
    ensures WholeWrites(target.log)
  {
    hide Stream;
    hide WholeWrites;
    hide Verdict;
    hide LogOf;
    hide Comes;
    hide Succeeds;
    hide Honest;
    NoWrites();
    if !target.world.hasSlot {
      return NoPartition;
    }
    if total == 0 || total > target.world.slotSize {
      return BadSize;
    }
    r := Transfer(target, total, headerLen);
    FinalOutcomes(target.world, total, headerLen, target.readCount - 1);
    DoneExact(target.world, total, headerLen, target.readCount - 1);
    LogConserves(target.world, total, headerLen, target.readCount - 1, r);
    WholeChunks(target.world, total, headerLen, target.readCount - 1, r);
  }

  lemma NoWrites()
    ensures WholeWrites([])
  {
  }

  lemma FinalOutcomes(w: World, total: nat, headerLen: nat, n: nat)
    requires Honest(w)
    ensures Verdict(w, total, headerLen, n) != Some(NoPartition) && Verdict(w, total, headerLen, n) != Some(BadSize)
  {
    hide Stream;
  }
}
