// The RFC 2217 server itself: a connection's state and its bounded buffers
// (src/core/rfc2217_proto.c, and the send loop of src/platform/esp32/main/rfc2217.cpp).
module Rfc2217 {
  import opened Bytes
  import opened Telnet
  import opened TelnetTheorems

  // ----- Bounded output -----

  // What a buffer of `max` bytes holding `s` holds after more is put: what does not fit is dropped
  function Fill(s: seq<byte>, more: seq<byte>, max: nat): seq<byte> {
    (s + more)[..Min(|s + more|, max)]
  }

  lemma FillFill(s: seq<byte>, a: seq<byte>, b: seq<byte>, max: nat)
    requires |s| <= max
    ensures Fill(Fill(s, a, max), b, max) == Fill(s, a + b, max)
    ensures Fill(s, [], max) == s && |Fill(s, a, max)| <= max
  {
  }

  class OutBuffer {
    const buf: array<byte>
    var len: nat

    ghost predicate Valid()
      reads this
    {
      len <= buf.Length
    }

    ghost function Contents(): seq<byte>
      requires Valid()
      reads this, buf
    {
      buf[..len]
    }

    constructor (buf: array<byte>)
      ensures Valid() && this.buf == buf && Contents() == []
    {
      this.buf := buf;
      len := 0;
    }

    method Put(b: byte)
      requires Valid()
      modifies this, buf
      ensures Valid() && Contents() == Fill(old(Contents()), [b], buf.Length)
    {
      if len < buf.Length {
        buf[len] := b;
        len := len + 1;
      }
    }

    method PutAll(s: seq<byte>)
      requires Valid()
      modifies this, buf
      ensures Valid() && Contents() == Fill(old(Contents()), s, buf.Length)
    {
      for i := 0 to |s|
        invariant Valid() && Contents() == Fill(old(Contents()), s[..i], buf.Length)
      {
        FillFill(old(Contents()), s[..i], [s[i]], buf.Length);
        assert s[..i] + [s[i]] == s[..i + 1];
        Put(s[i]);
      }
      assert s[..|s|] == s;
    }

    // The bytes with 0xFF doubled
    method PutEscaped(s: seq<byte>)
      requires Valid()
      modifies this, buf
      ensures Valid() && Contents() == Fill(old(Contents()), Escape(s), buf.Length)
    {
      hide Fill;
      FillFill(Contents(), [], [], buf.Length);
      for i := 0 to |s|
        invariant Valid() && Contents() == Fill(old(Contents()), Escape(s[..i]), buf.Length)
      {
        EscapeMore(s, i);
        FillFill(old(Contents()), Escape(s[..i]), [s[i]], buf.Length);
        Put(s[i]);
        if s[i] == IAC {
          FillFill(old(Contents()), Escape(s[..i]) + [IAC], [IAC], buf.Length);
          Put(IAC);
        }
      }
      assert s[..|s|] == s;
    }
  }

  lemma EscapeMore(s: seq<byte>, i: nat)
    requires i < |s|
    ensures Escape(s[..i + 1]) == if s[i] == IAC then Escape(s[..i]) + [s[i]] + [IAC] else Escape(s[..i]) + [s[i]]
  {
    assert s[..i + 1][..i] == s[..i];
    assert Escape(s[..i]) + [IAC] + [IAC] == Escape(s[..i]) + [IAC, IAC];
  }

  // The two buffers of one read, and whether DTR went on during it
  class Io {
    const data: OutBuffer
    const reply: OutBuffer
    var dtrRaised: bool

    ghost predicate Valid()
      reads this, data, reply
    {
      data != reply && data.buf != reply.buf && data.Valid() && reply.Valid()
    }

    constructor (data: OutBuffer, reply: OutBuffer)
      requires data != reply && data.buf != reply.buf && data.Valid() && reply.Valid()
      ensures Valid() && this.data == data && this.reply == reply && !dtrRaised
    {
      this.data, this.reply, dtrRaised := data, reply, false;
    }

    // The buffers hold what they did and an effect, as far as they have room
    twostate predicate Took(e: Effect)
      requires old(Valid()) && Valid()
      reads this, data, data.buf, reply, reply.buf
    {
      && data.Contents() == Fill(old(data.Contents()), e.data, data.buf.Length)
      && reply.Contents() == Fill(old(reply.Contents()), RenderAll(e.replies), reply.buf.Length)
      && dtrRaised == (old(dtrRaised) || e.dtrRaised)
    }

    method PutCmd(verb: byte, opt: byte)
      requires Valid()
      modifies reply, reply.buf
      ensures Valid() && Took(Effect([], [Announce(verb, opt)], false))
    {
      reply.PutAll([IAC, verb, opt]);
      RenderOne(Announce(verb, opt));
      FillFill(data.Contents(), [], [], data.buf.Length);
    }

    method PutCpo(cmd: byte, payload: seq<byte>)
      requires Valid()
      modifies reply, reply.buf
      ensures Valid() && Took(Effect([], [ComPort(cmd, payload)], false))
    {
      hide Fill;
      hide Escape;
      hide RenderAll;
      ghost var start := reply.Contents();
      reply.PutAll([IAC, SB, OPT_COM_PORT, (cmd as int + 100) % 256]);
      reply.PutEscaped(payload);
      reply.PutAll([IAC, SE]);
      FillReply(start, cmd, payload, reply.buf.Length);
      FillFill(data.Contents(), [], [], data.buf.Length);
    }
  }

  // The three parts of a COM-PORT reply
  lemma FillReply(start: seq<byte>, cmd: byte, payload: seq<byte>, max: nat)
    requires |start| <= max
    ensures var head: seq<byte> := [IAC, SB, OPT_COM_PORT, (cmd as int + 100) % 256];
            Fill(Fill(Fill(start, head, max), Escape(payload), max), [IAC, SE], max)
            == Fill(start, RenderAll([ComPort(cmd, payload)]), max)
  {
    hide Fill;
    hide Escape;
    var head: seq<byte> := [IAC, SB, OPT_COM_PORT, (cmd as int + 100) % 256];
    FillFill(start, head, Escape(payload), max);
    FillFill(start, head + Escape(payload), [IAC, SE], max);
    RenderOne(ComPort(cmd, payload));
  }

  // ----- The connection -----

  class Connection {
    var st: St
    var verb: byte
    const sb: array<byte>
    var sbLen: nat
    var sbOverflow: bool
    var session: Session

    ghost predicate Valid()
      reads this
    {
      sb.Length == SB_MAX && sbLen <= SB_MAX
    }

    ghost function FrameOf(): Frame
      requires Valid()
      reads this, sb
    {
      Frame(st, verb, sb[..sbLen], sbOverflow)
    }

    constructor ()
      ensures Valid() && fresh(sb) && FrameOf() == NEW_FRAME && session == NEW_SESSION
    {
      st, verb, sbLen, sbOverflow, session := InData, 0, 0, false, NEW_SESSION;
      sb := new byte[SB_MAX](_ => 0);
    }

    // The server's offers
    method Greeting(io: Io)
      requires Valid() && io.Valid()
      modifies this`session, io.reply, io.reply.buf
      ensures Valid() && io.Valid() && session == Greeted(old(session))
      ensures io.Took(Effect([], GREETING, false))
    {
      hide Fill;
      hide Render;
      hide RenderAll;
      ghost var start, max := io.reply.Contents(), io.reply.buf.Length;
      io.PutCmd(WILL, OPT_BINARY);
      ghost var g1 := [Announce(WILL, OPT_BINARY)];
      FillMore(start, g1, Announce(DO, OPT_BINARY), max);
      io.PutCmd(DO, OPT_BINARY);
      ghost var g2 := g1 + [Announce(DO, OPT_BINARY)];
      FillMore(start, g2, Announce(WILL, OPT_SGA), max);
      io.PutCmd(WILL, OPT_SGA);
      ghost var g3 := g2 + [Announce(WILL, OPT_SGA)];
      FillMore(start, g3, Announce(DO, OPT_SGA), max);
      io.PutCmd(DO, OPT_SGA);
      ghost var g4 := g3 + [Announce(DO, OPT_SGA)];
      FillMore(start, g4, Announce(DO, OPT_COM_PORT), max);
      io.PutCmd(DO, OPT_COM_PORT);
      assert g4 + [Announce(DO, OPT_COM_PORT)] == GREETING;
      session := Greeted(session);
      FillFill(io.data.Contents(), [], [], io.data.buf.Length);
    }

    // WILL, WONT, DO or DONT from the client
    method HandleVerb(v: byte, opt: byte, io: Io)
      requires Valid() && io.Valid()
      modifies this`session, io.reply, io.reply.buf
      ensures Valid() && io.Valid() && session == OnVerb(old(session), v, opt).0
      ensures io.Took(Effect([], OnVerb(old(session), v, opt).1, false))
    {
      hide Fill;
      hide RenderAll;
      NothingTaken(io.data.Contents(), io.data.buf.Length);
      NothingTaken(io.reply.Contents(), io.reply.buf.Length);
      if opt == OPT_COM_PORT {
        if v == WILL {
          io.PutCmd(DO, opt);
        } else if v == DO {
          io.PutCmd(WONT, opt);
        }
        return;
      }
      var b := BitOf(opt);
      if v == WILL {
        if TheyAccept(opt) {
          if session.they * b == {} {
            io.PutCmd(DO, opt);
          }
          session := session.(they := session.they + b);
        } else {
          io.PutCmd(DONT, opt);
        }
      } else if v == WONT {
        if session.they * b != {} {
          io.PutCmd(DONT, opt);
        }
        session := session.(they := session.they - b);
      } else if v == DO {
        if WeAccept(opt) {
          if session.we * b == {} {
            io.PutCmd(WILL, opt);
          }
          session := session.(we := session.we + b);
        } else {
          io.PutCmd(WONT, opt);
        }
      } else if v == DONT {
        if session.we * b != {} {
          io.PutCmd(WONT, opt);
        }
        session := session.(we := session.we - b);
      }
    }

    // A complete subnegotiation
    method HandleSubneg(io: Io, modem: byte)
      requires Valid() && io.Valid() && io.reply.buf != sb
      modifies this`session, io, io.reply, io.reply.buf
      ensures Valid() && io.Valid()
      ensures session == OnSubneg(old(session), sb[..sbLen], sbOverflow, modem).0
      ensures io.Took(Effect([], OnSubneg(old(session), sb[..sbLen], sbOverflow, modem).1,
                             OnSubneg(old(session), sb[..sbLen], sbOverflow, modem).2))
    {
      hide Fill;
      hide RenderAll;
      NothingTaken(io.data.Contents(), io.data.buf.Length);
      NothingTaken(io.reply.Contents(), io.reply.buf.Length);
      if sbOverflow || sbLen < 2 || sb[0] != OPT_COM_PORT {
        return;
      }
      var cmd, arg := sb[1], sb[2..sbLen];
      assert arg == sb[..sbLen][2..];
      match cmd {
        case 0 => if arg == [] { io.PutCpo(cmd, SIGNATURE); }
        case 1 =>
          if |arg| >= 4 {
            var v := U32Of(arg);
            if v != 0 {
              session := session.(baud := v);
            }
            io.PutCpo(cmd, BytesOf(session.baud));
          }
        case 5 =>
          if arg != [] {
            if arg[0] == CONTROL_DTR_ON {
              if !session.dtr {
                io.dtrRaised := true;
              }
              session := session.(dtr := true);
            } else if arg[0] == CONTROL_DTR_OFF {
              session := session.(dtr := false);
            }
            io.PutCpo(cmd, [arg[0]]);
          }
        case 6 => io.PutCpo(cmd, [0x60]);
        case 7 => io.PutCpo(cmd, [modem]);
        case 8 =>
        case 9 =>
        case _ =>
          if arg != [] && 2 <= cmd <= 4 {
            if arg[0] != 0 {
              session := WithField(session, cmd, arg[0]);
            }
            io.PutCpo(cmd, [Field(session, cmd)]);
          } else if arg != [] {
            io.PutCpo(cmd, [arg[0]]);
          }
      }
    }

    method StoreSb(b: byte)
      requires Valid()
      modifies this`sbLen, this`sbOverflow, sb
      ensures Valid() && FrameOf() == PushSb(old(FrameOf()), b)
    {
      if sbLen < SB_MAX {
        sb[sbLen] := b;
        sbLen := sbLen + 1;
      } else {
        sbOverflow := true;
      }
    }

    // One byte from the client
    method InputByte(b: byte, io: Io, modem: byte)
      requires Valid() && io.Valid() && io.reply.buf != sb && io.data.buf != sb
      modifies this, sb, io, io.data, io.data.buf, io.reply, io.reply.buf
      ensures Valid() && io.Valid()
      ensures FrameOf() == FrameStep(old(FrameOf()), b).0
      ensures var (s', e) := HandleAll(old(session), FrameStep(old(FrameOf()), b).1, modem); session == s' && io.Took(e)
    {
      hide Fill;
      hide RenderAll;
      hide OnVerb;
      hide OnSubneg;
      ghost var tokens := FrameStep(FrameOf(), b).1;
      HandleFew(session, tokens, modem);
      NothingTaken(io.data.Contents(), io.data.buf.Length);
      NothingTaken(io.reply.Contents(), io.reply.buf.Length);
      match st {
        case InData => if b == IAC { st := InIac; } else { io.data.Put(b); }
        case InIac =>
          if b == IAC {
            io.data.Put(IAC);
            st := InData;
          } else if b >= WILL {
            verb := b;
            st := InVerb;
          } else if b == SB {
            sbLen := 0;
            sbOverflow := false;
            st := InSb;
          } else {
            st := InData;
          }
        case InVerb =>
          HandleVerb(verb, b, io);
          st := InData;
        case InSb => if b == IAC { st := InSbIac; } else { StoreSb(b); }
        case InSbIac =>
          if b == IAC {
            StoreSb(IAC);
            st := InSb;
          } else if b == SE {
            HandleSubneg(io, modem);
            st := InData;
          } else {
            st := InSb;
          }
      }
    }

    // Bytes from the client. The connection ends where parsing and then handling the whole stream ends;
    // data and replies are those of the whole stream, as far as the buffers have room.
    method Input(input: seq<byte>, io: Io, modem: byte)
      requires Valid() && io.Valid() && io.reply.buf != sb && io.data.buf != sb
      modifies this, sb, io, io.data, io.data.buf, io.reply, io.reply.buf
      ensures Valid() && io.Valid()
      ensures var (f', s', e) := Serve(old(FrameOf()), old(session), input, modem);
              FrameOf() == f' && session == s' && io.Took(e)
    {
      hide Fill;
      hide RenderAll;
      hide FrameStep;
      hide HandleAll;
      hide FrameRun;
      NothingTaken(io.data.Contents(), io.data.buf.Length);
      NothingTaken(io.reply.Contents(), io.reply.buf.Length);
      ServeNothing(FrameOf(), session, modem);
      for i := 0 to |input|
        invariant Valid() && io.Valid()
        invariant var (f', s', e) := Serve(old(FrameOf()), old(session), input[..i], modem);
                  FrameOf() == f' && session == s' && io.Took(e)
      {
        ghost var e1 := Serve(old(FrameOf()), old(session), input[..i], modem).2;
        ghost var e2 := HandleAll(session, FrameStep(FrameOf(), input[i]).1, modem).1;
        ServeMore(old(FrameOf()), old(session), input, i, modem);
        FillFill(old(io.data.Contents()), e1.data, e2.data, io.data.buf.Length);
        FillFill(old(io.reply.Contents()), RenderAll(e1.replies), RenderAll(e2.replies), io.reply.buf.Length);
        RenderAllConcat(e1.replies, e2.replies);
        InputByte(input[i], io, modem);
      }
      assert input[..|input|] == input;
    }
  }

  lemma ServeNothing(f: Frame, s: Session, modem: byte)
    ensures Serve(f, s, [], modem) == (f, s, NO_EFFECT)
  {
  }

  lemma ServeMore(f: Frame, s: Session, input: seq<byte>, i: nat, modem: byte)
    requires i < |input|
    ensures var (f1, s1, e1) := Serve(f, s, input[..i], modem);
            var (f2, t2) := FrameStep(f1, input[i]);
            var (s2, e2) := HandleAll(s1, t2, modem);
            Serve(f, s, input[..i + 1], modem) == (f2, s2, Both(e1, e2))
  {
    hide FrameRun;
    hide FrameStep;
    hide HandleAll;
    assert input[..i + 1] == input[..i] + [input[i]];
    ServeConcat(f, s, input[..i], [input[i]], modem);
    One(Serve(f, s, input[..i], modem).0, input[i]);
  }

  // Handling no token, or one
  lemma HandleFew(s: Session, ts: seq<Token>, modem: byte)
    requires |ts| <= 1
    ensures ts == [] ==> HandleAll(s, ts, modem) == (s, NO_EFFECT)
    ensures |ts| == 1 ==> HandleAll(s, ts, modem) == Handle(s, ts[0], modem)
  {
    hide Handle;
    if |ts| == 1 {
      assert ts == [] + [ts[0]];
      HandleLast(s, [], ts[0], modem);
      var e := Handle(s, ts[0], modem).1;
      assert NO_EFFECT.data + e.data == e.data && NO_EFFECT.replies + e.replies == e.replies;
    }
  }

  lemma NothingTaken(s: seq<byte>, max: nat)
    requires |s| <= max
    ensures Fill(s, [], max) == s && Fill(s, RenderAll([]), max) == s
  {
  }

  lemma FillMore(start: seq<byte>, rs: seq<Reply>, r: Reply, max: nat)
    requires |start| <= max
    ensures Fill(Fill(start, RenderAll(rs), max), RenderAll([r]), max) == Fill(start, RenderAll(rs + [r]), max)
  {
    assert (rs + [r])[..|rs|] == rs;
    RenderOne(r);
    FillFill(start, RenderAll(rs), Render(r), max);
  }

  // A buffer only ever cuts the end off: what it holds is a prefix of what it was given, and all of it
  // when a read's data goes to a buffer with room for the read.
  lemma BuffersOnlyCut(f: Frame, s: Session, input: seq<byte>, modem: byte, start: seq<byte>, max: nat)
    requires |start| <= max
    ensures var e := Serve(f, s, input, modem).2;
            && Fill(start, e.data, max) <= start + e.data
            && Fill(start, RenderAll(e.replies), max) <= start + RenderAll(e.replies)
            && (|start| + |input| <= max ==> Fill(start, e.data, max) == start + e.data)
  {
    hide FrameRun;
    hide HandleAll;
    DataFits(f, input);
    HandledData(s, FrameRun(f, input).1, modem);
  }

  // ----- Text for the client -----

  // How many bytes of the input fit with every 0xFF doubled; a doubled byte is never cut
  function Fitting(input: seq<byte>, room: nat): (n: nat)
    ensures n <= |input|
  {
    if input == [] then 0
    else
      var need := if input[0] == IAC then 2 else 1;
      if need > room then 0 else 1 + Fitting(input[1..], room - need)
  }

  lemma {:induction false} EscapeHead(b: byte, s: seq<byte>)
    ensures Escape([b] + s) == (if b == IAC then [IAC, IAC] else [b]) + Escape(s)
  {
    EscapeConcat([b], s);
    assert [b][..0] == [] && Escape([]) == [];
  }

  // What fits is the most that fits.
  lemma {:induction false} FittingIsMost(input: seq<byte>, room: nat)
    ensures var n := Fitting(input, room);
            && |Escape(input[..n])| <= room
            && (n < |input| ==> |Escape(input[..n + 1])| > room)
            && (input != [] && room >= 2 ==> n > 0)
  {
    hide Escape;
    EscapeNothing();
    if input != [] {
      var need := if input[0] == IAC then 2 else 1;
      if need > room {
        EscapeHead(input[0], []);
        assert input[..1] == [input[0]] + [];
      } else {
        FittingIsMost(input[1..], room - need);
        var n := Fitting(input[1..], room - need);
        EscapeHead(input[0], input[1..][..n]);
        assert input[..n + 1] == [input[0]] + input[1..][..n];
        if n < |input| - 1 {
          EscapeHead(input[0], input[1..][..n + 1]);
          assert input[..n + 2] == [input[0]] + input[1..][..n + 1];
        }
      }
    }
  }

  method EscapeInto(input: seq<byte>, out: array<byte>) returns (o: nat, used: nat)
    modifies out
    ensures used == Fitting(input, out.Length)
    ensures o <= out.Length && out[..o] == Escape(input[..used])
  {
    hide Escape;
    o, used := 0, 0;
    EscapeNothing();
    assert input[0..] == input;
    while used < |input|
      invariant used <= |input| && o <= out.Length && out[..o] == Escape(input[..used])
      invariant used + Fitting(input[used..], out.Length - o) == Fitting(input, out.Length)
    {
      var need := if input[used] == IAC then 2 else 1;
      if o + need > out.Length {
        break;
      }
      ghost var before := out[..o];
      EscapeMore(input, used);
      assert input[used..][1..] == input[used + 1..];
      out[o] := input[used];
      o := o + 1;
      if input[used] == IAC {
        out[o] := IAC;
        o := o + 1;
      }
      assert out[..o] == before + (if input[used] == IAC then [IAC] + [IAC] else [input[used]]);
      used := used + 1;
    }
  }

  lemma EscapeNothing()
    ensures Escape([]) == []
  {
  }

  // A socket and what has got through it, one entry a send. Whether a send works is the socket's own affair.
  class Socket {
    const works: nat -> bool
    var sends: nat
    ghost var chunks: seq<seq<byte>>

    constructor (works: nat -> bool)
      ensures this.works == works && sends == 0 && chunks == []
    {
      this.works, sends, chunks := works, 0, [];
    }

    method Send(s: seq<byte>) returns (ok: bool)
      modifies this
      ensures ok == works(old(sends)) && sends == old(sends) + 1
      ensures chunks == if ok then old(chunks) + [s] else old(chunks)
    {
      ok := works(sends);
      sends := sends + 1;
      if ok {
        chunks := chunks + [s];
      }
    }
  }

  ghost function Joined(chunks: seq<seq<byte>>): seq<byte> {
    if chunks == [] then [] else Joined(chunks[..|chunks| - 1]) + chunks[|chunks| - 1]
  }

  const SEND_SIZE := 128

  // The pieces a text is sent in: as much as fits, and the same with what is left
  ghost function Pieces(text: seq<byte>): seq<seq<byte>>
    decreases |text|
  {
    if text == [] then []
    else
      var n := Fitting(text, SEND_SIZE);
      if n == 0 then [] else [Escape(text[..n])] + Pieces(text[n..])
  }

  // Sends the text in its pieces. Always ends; it succeeds if and only if every send works, stops at the
  // first that does not, and what has got through is exactly the pieces before it. The client reads from
  // them the first n bytes of the text, with no answer and no change of state, and they are the whole text
  // if and only if it succeeds.
  method SendText(text: seq<byte>, socket: Socket) returns (ok: bool, ghost n: nat)
    requires socket.sends == 0 && socket.chunks == []
    modifies socket
    ensures ok <==> forall i :: 0 <= i < |Pieces(text)| ==> socket.works(i)
    ensures ok ==> socket.chunks == Pieces(text)
    ensures !ok ==>
              var i := socket.sends - 1;
              0 <= i < |Pieces(text)| && FirstFailure(socket.works, i) && socket.chunks == Pieces(text)[..i]
    ensures n <= |text| && ReadAs(Joined(socket.chunks), text[..n])
    ensures ok <==> n == |text|
  {
    hide Escape;
    hide Fitting;
    hide Pieces;
    hide Joined;
    hide ReadAs;
    var out := new byte[SEND_SIZE];
    var p := 0;
    assert text[0..] == text;
    PiecesStart(text);
    while p < |text|
      invariant 0 <= p <= |text| && fresh(out)
      invariant socket.sends == |socket.chunks| && socket.chunks + Pieces(text[p..]) == Pieces(text)
      invariant forall i :: 0 <= i < socket.sends ==> socket.works(i)
    {
      var o, used := EscapeInto(text[p..], out);
      NextPiece(text, p, used);
      ghost var before := socket.chunks;
      ok := socket.Send(out[..o]);
      if !ok {
        assert Pieces(text)[..|before|] == before;
        n := PiecesAreRead(text, |before|);
        return;
      }
      MovePiece(before, out[..o], Pieces(text[p + used..]));
      p := p + used;
    }
    PiecesStart(text[p..]);
    assert Pieces(text)[..|Pieces(text)|] == Pieces(text);
    n := PiecesAreRead(text, |Pieces(text)|);
    ok := true;
  }

  lemma MovePiece(before: seq<seq<byte>>, piece: seq<byte>, rest: seq<seq<byte>>)
    ensures before + ([piece] + rest) == before + [piece] + rest
  {
  }

  ghost predicate FirstFailure(works: nat -> bool, i: nat) {
    !works(i) && forall j :: 0 <= j < i ==> works(j)
  }

  lemma PiecesStart(text: seq<byte>)
    ensures text == [] ==> Pieces(text) == []
  {
  }

  lemma NextPiece(text: seq<byte>, p: nat, used: nat)
    requires p < |text| && used == Fitting(text[p..], SEND_SIZE)
    ensures used > 0 && Pieces(text[p..]) == [Escape(text[p..][..used])] + Pieces(text[p + used..])
  {
    FittingIsMost(text[p..], SEND_SIZE);
    assert text[p..][used..] == text[p + used..];
  }

  ghost predicate IsEscaped(s: seq<byte>) { exists t :: s == Escape(t) }

  lemma {:induction false} JoinedFirst(first: seq<byte>, chunks: seq<seq<byte>>)
    ensures Joined([first] + chunks) == first + Joined(chunks)
  {
    if chunks == [] {
      assert [first] + chunks == [first] && [first][..0] == [] && Joined([]) == [];
    } else {
      var n := |chunks| - 1;
      JoinedFirst(first, chunks[..n]);
      assert ([first] + chunks)[..n + 1] == [first] + chunks[..n];
    }
  }

  // The first m pieces are the escaped text as far as it goes, and all of it if they are all: each of at most
  // 128 bytes and of whole escaped bytes, so that no doubled 0xFF is split between two sends.
  lemma {:induction false} PiecesAreText(text: seq<byte>, m: nat) returns (n: nat)
    requires m <= |Pieces(text)|
    ensures n <= |text| && Joined(Pieces(text)[..m]) == Escape(text[..n])
    ensures m == |Pieces(text)| <==> n == |text|
    ensures forall i :: 0 <= i < m ==> |Pieces(text)[i]| <= SEND_SIZE && IsEscaped(Pieces(text)[i])
    decreases |text|
  {
    hide Escape;
    hide Fitting;
    hide IsEscaped;
    EscapeNothing();
    if text == [] {
      n := 0;
    } else {
      var used := Fitting(text, SEND_SIZE);
      assert text[0..] == text;
      NextPiece(text, 0, used);
      FittingIsMost(text, SEND_SIZE);
      var first, rest := Escape(text[..used]), text[used..];
      assert Pieces(text) == [first] + Pieces(rest);
      if m == 0 {
        n := 0;
      } else {
        n := PiecesAreText(rest, m - 1);
        assert ([first] + Pieces(rest))[..m] == [first] + Pieces(rest)[..m - 1];
        assert IsEscaped(first) by {
          EscapedIs(text[..used]);
        }
        FirstPiece(text, used, n, Pieces(rest)[..m - 1]);
        n := used + n;
      }
    }
  }

  lemma EscapedIs(s: seq<byte>)
    ensures IsEscaped(Escape(s))
  {
  }

  lemma FirstPiece(text: seq<byte>, used: nat, n: nat, chunks: seq<seq<byte>>)
    requires used <= |text| && n <= |text| - used && Joined(chunks) == Escape(text[used..][..n])
    ensures Joined([Escape(text[..used])] + chunks) == Escape(text[..used + n])
  {
    hide Escape;
    hide Joined;
    JoinedFirst(Escape(text[..used]), chunks);
    EscapeConcat(text[..used], text[used..][..n]);
    assert text[..used] + text[used..][..n] == text[..used + n];
  }

  // A client that is between items reads exactly this from these bytes: the text, and nothing else
  ghost predicate ReadAs(sent: seq<byte>, text: seq<byte>) {
    forall f: Frame, s: Session, modem: byte :: f.st.InData? ==>
      Serve(f, s, sent, modem) == (f, s, Effect(text, [], false))
  }

  lemma PiecesAreRead(text: seq<byte>, m: nat) returns (n: nat)
    requires m <= |Pieces(text)|
    ensures n <= |text| && ReadAs(Joined(Pieces(text)[..m]), text[..n])
    ensures m == |Pieces(text)| <==> n == |text|
  {
    hide Serve;
    hide Joined;
    hide Pieces;
    n := PiecesAreText(text, m);
    forall f: Frame, s: Session, modem: byte | f.st.InData?
      ensures Serve(f, s, Joined(Pieces(text)[..m]), modem) == (f, s, Effect(text[..n], [], false))
    {
      TextArrives(f, s, text[..n], modem);
    }
  }

  // Text sent escaped is read back by the other end as that text, and nothing is answered.
  lemma {:induction false} TextArrives(f: Frame, s: Session, text: seq<byte>, modem: byte)
    requires f.st.InData?
    ensures Serve(f, s, Escape(text), modem) == (f, s, Effect(text, [], false))
  {
    hide FrameRun;
    hide HandleAll;
    TextParses(f, text);
    DataHandled(s, text, modem);
  }

  lemma {:induction false} DataHandled(s: Session, text: seq<byte>, modem: byte)
    ensures HandleAll(s, DataTokens(text), modem) == (s, Effect(text, [], false))
  {
    if text != [] {
      var n := |text| - 1;
      DataHandled(s, text[..n], modem);
      assert DataTokens(text) == DataTokens(text[..n]) + [Data(text[n])];
      HandleLast(s, DataTokens(text[..n]), Data(text[n]), modem);
      assert text[..n] + [text[n]] == text;
    }
  }
}
