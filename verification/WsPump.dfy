/** The WebSocket-to-PTY half of the console pump in runJailSession (daemon/ws_console.cpp). */
module WsPump {
  import opened WsFrame

  // ---------- Parsing a whole buffer at once ----------

  datatype Drained = Drained(frames: seq<Frame>, rest: seq<byte>, error: bool)

  /** A parser whose verdicts more bytes do not change. */
  ghost predicate Incremental(parse: seq<byte> -> ParseResult) {
    && (forall a, b :: Stands(parse, a, b))
    && (forall a :: Measured(parse, a))
  }

  ghost predicate Stands(parse: seq<byte> -> ParseResult, a: seq<byte>, b: seq<byte>) {
    !parse(a).NeedMore? ==> parse(a + b) == parse(a)
  }

  /** It consumes no more than there is and does not wait for ever. */
  ghost predicate Measured(parse: seq<byte> -> ParseResult, a: seq<byte>) {
    match parse(a)
    case Parsed(_, n) => 0 < n <= |a|
    case NeedMore => |a| < MAX_PAYLOAD + 14
    case ProtocolError => true
  }

  lemma FramesAreIncremental()
    ensures Incremental(ParseFrame)
  {
    forall a, b ensures Stands(ParseFrame, a, b) {
      if !ParseFrame(a).NeedMore? { VerdictStands(a, b); }
    }
    forall a ensures Measured(ParseFrame, a) {
      ConsumedWithin(a);
      if ParseFrame(a).NeedMore? { IncompleteIsBounded(a); }
    }
  }

  function DrainWith(parse: seq<byte> -> ParseResult, buf: seq<byte>): Drained
    decreases |buf|
  {
    match parse(buf)
    case NeedMore => Drained([], buf, false)
    case ProtocolError => Drained([], buf, true)
    case Parsed(f, n) =>
      if 0 < n <= |buf| then
        var d := DrainWith(parse, buf[n..]);
        Drained([f] + d.frames, d.rest, d.error)
      else Drained([], buf, true)
  }

  /** Bytes that arrive later only add to what was parsed. */
  lemma {:induction false} DrainExtends(parse: seq<byte> -> ParseResult, a: seq<byte>, b: seq<byte>)
    requires Incremental(parse)
    ensures var d := DrainWith(parse, a); var e := DrainWith(parse, d.rest + b);
      DrainWith(parse, a + b)
        == if d.error then Drained(d.frames, d.rest + b, true) else Drained(d.frames + e.frames, e.rest, e.error)
    decreases |a|
  {
    assert Stands(parse, a, b);
    assert Measured(parse, a);
    match parse(a)
    case NeedMore =>
      assert [] + DrainWith(parse, a + b).frames == DrainWith(parse, a + b).frames;
    case ProtocolError =>
    case Parsed(f, n) =>
      assert (a + b)[n..] == a[n..] + b;
      DrainExtends(parse, a[n..], b);
      var d := DrainWith(parse, a[n..]);
      Associative([f], d.frames, DrainWith(parse, d.rest + b).frames);
  }

  lemma Associative<T>(x: seq<T>, y: seq<T>, z: seq<T>)
    ensures x + (y + z) == (x + y) + z
  {
  }

  lemma {:induction false} RestIsBounded(parse: seq<byte> -> ParseResult, buf: seq<byte>)
    requires Incremental(parse) && !DrainWith(parse, buf).error
    ensures |DrainWith(parse, buf).rest| < MAX_PAYLOAD + 14
    decreases |buf|
  {
    assert Measured(parse, buf);
    match parse(buf)
    case NeedMore =>
    case Parsed(f, n) => RestIsBounded(parse, buf[n..]);
  }

  /** The frames of a buffer parsed from its start, and what is left of it. */
  function Drain(buf: seq<byte>): Drained { DrainWith(ParseFrame, buf) }

  lemma EmptyNeedsMore()
    ensures Drain([]) == Drained([], [], false)
  {
  }

  /** The drain loop after `got`, with `now` left of `start`. */
  ghost predicate Draining(parse: seq<byte> -> ParseResult, start: seq<byte>, got: seq<Frame>, now: seq<byte>) {
    var e := DrainWith(parse, now);
    DrainWith(parse, start) == Drained(got + e.frames, e.rest, e.error)
  }

  lemma DrainingNext(parse: seq<byte> -> ParseResult, start: seq<byte>, got: seq<Frame>, now: seq<byte>)
    requires Incremental(parse) && Draining(parse, start, got, now)
    ensures match parse(now)
      case Parsed(f, n) => 0 < n <= |now| && Draining(parse, start, got + [f], now[n..])
      case NeedMore => DrainWith(parse, start) == Drained(got, now, false)
      case ProtocolError => DrainWith(parse, start) == Drained(got, now, true)
  {
    assert Measured(parse, now);
    match parse(now)
    case Parsed(f, n) =>
      Associative(got, [f], DrainWith(parse, now[n..]).frames);
    case _ =>
      assert got + [] == got;
  }

  /** A frame in front of a stream is the first one parsed from it. */
  lemma DrainEncoded(op: Opcode, payload: seq<byte>, rest: seq<byte>)
    requires Fits(op, |payload|)
    ensures var d := Drain(rest);
      Drain(EncodeFrame(op, payload, false, []) + rest)
        == Drained([Frame(op, true, false, payload)] + d.frames, d.rest, d.error)
  {
    Pow256Small();
    FrameRoundTrip(op, payload, false, [], rest);
    var w := EncodeFrame(op, payload, false, []);
    assert (w + rest)[|w|..] == rest;
  }

  // ---------- What is done with a frame ----------

  predicate HasClose(fs: seq<Frame>) { exists i :: 0 <= i < |fs| && fs[i].opcode == Close }

  /** Payloads written to the PTY, in order. */
  function ToPty(fs: seq<Frame>): seq<byte> {
    if fs == [] then []
    else ToPty(fs[..|fs| - 1]) +
         if fs[|fs| - 1].opcode in {Text, Binary, Continuation} then fs[|fs| - 1].payload else []
  }

  /** Pongs answered, in order. */
  function ToWs(fs: seq<Frame>): seq<byte> {
    if fs == [] then []
    else ToWs(fs[..|fs| - 1]) +
         if fs[|fs| - 1].opcode == Ping then EncodeFrame(Pong, fs[|fs| - 1].payload, false, []) else []
  }

  // ---------- The pump as a state step ----------

  datatype Session = Session(buf: seq<byte>, handled: seq<Frame>, closed: bool)

  const START := Session([], [], false)

  /** One recv of `chunk`; a closed session reads no more. */
  function Receive(s: Session, chunk: seq<byte>): Session {
    if s.closed then s
    else if chunk == [] then s.(closed := true)
    else
      var d := Drain(s.buf + chunk);
      Session(d.rest, s.handled + d.frames, d.error || HasClose(d.frames))
  }

  function ReceiveAll(chunks: seq<seq<byte>>): Session {
    if chunks == [] then START else Receive(ReceiveAll(chunks[..|chunks| - 1]), chunks[|chunks| - 1])
  }

  function Concat(chunks: seq<seq<byte>>): seq<byte> {
    if chunks == [] then [] else Concat(chunks[..|chunks| - 1]) + chunks[|chunks| - 1]
  }

  class Pump {
    var wsBuf: seq<byte>
    var closed: bool
    var toPty: seq<byte>
    var toWs: seq<byte>
    ghost var handled: seq<Frame>

    ghost function View(): Session
      reads this
    {
      Session(wsBuf, handled, closed)
    }

    ghost predicate Valid()
      reads this
    {
      toPty == ToPty(handled) && toWs == ToWs(handled)
    }

    constructor ()
      ensures Valid() && View() == START
    {
      wsBuf, closed, toPty, toWs := [], false, [], [];
      handled := [];
    }

    /** One readable event on the socket; an empty chunk is end of file or an error. */
    method OnReadable(chunk: seq<byte>)
      requires Valid() && !closed
      modifies this
      ensures Valid() && View() == Receive(old(View()), chunk)
    {
      if chunk == [] {
        closed := true;
        return;
      }
      wsBuf := wsBuf + chunk;
      DrainBuffer();
    }

    /** The loop that parses and handles what is in the buffer. */
    method DrainBuffer()
      requires Valid() && !closed
      modifies this
      ensures Valid() && wsBuf == Drain(old(wsBuf)).rest && handled == old(handled) + Drain(old(wsBuf)).frames
      ensures closed <==> Drain(old(wsBuf)).error || HasClose(Drain(old(wsBuf)).frames)
    {
      ghost var start := wsBuf;
      ghost var got: seq<Frame> := [];
      FramesAreIncremental();
      assert got + Drain(start).frames == Drain(start).frames;
      while wsBuf != []
        invariant Valid() && handled == old(handled) + got
        invariant closed <==> HasClose(got)
        invariant Draining(ParseFrame, start, got, wsBuf)
        decreases |wsBuf|
      {
        DrainingNext(ParseFrame, start, got, wsBuf);
        var r := ParseFrameBytes(wsBuf);
        if r.NeedMore? {
          return;
        }
        if r.ProtocolError? {
          closed := true;
          return;
        }
        wsBuf := wsBuf[r.consumed..];
        Handle(r.frame);
        CloseAppended(got, r.frame);
        Associative(old(handled), got, [r.frame]);
        got := got + [r.frame];
      }
      EmptyNeedsMore();
      assert got + [] == got;
    }

    /** The switch on the opcode; its break leaves the switch, not the loop. */
    method Handle(f: Frame)
      requires Valid()
      modifies this`closed, this`toPty, this`toWs, this`handled
      ensures Valid() && handled == old(handled) + [f]
      ensures closed == (old(closed) || f.opcode == Close)
    {
      match f.opcode {
        case Close => closed := true;
        case Ping =>
          var pong := EncodeFrameBytes(Pong, f.payload, false, []);
          toWs := toWs + pong;
        case Pong =>
        case Text => toPty := toPty + f.payload;
        case Binary => toPty := toPty + f.payload;
        case Continuation => toPty := toPty + f.payload;
      }
      handled := handled + [f];
      assert handled[..|handled| - 1] == old(handled);
    }

    /** Feed reads until the session closes or the reads run out. */
    method Run(chunks: seq<seq<byte>>)
      requires Valid() && View() == START
      modifies this
      ensures Valid() && View() == ReceiveAll(chunks)
    {
      for i := 0 to |chunks|
        invariant Valid() && View() == ReceiveAll(chunks[..i])
      {
        assert chunks[..i + 1][..i] == chunks[..i];
        if closed {
          StaysClosed(chunks, i);
          assert chunks[..|chunks|] == chunks;
          return;
        }
        OnReadable(chunks[i]);
      }
      assert chunks[..|chunks|] == chunks;
    }
  }

  lemma CloseAppended(fs: seq<Frame>, f: Frame)
    ensures HasClose(fs + [f]) <==> HasClose(fs) || f.opcode == Close
  {
    if HasClose(fs) {
      var i :| 0 <= i < |fs| && fs[i].opcode == Close;
      assert (fs + [f])[i].opcode == Close;
    }
    if f.opcode == Close {
      assert (fs + [f])[|fs|].opcode == Close;
    }
  }

  lemma {:induction false} StaysClosed(chunks: seq<seq<byte>>, i: nat)
    requires i <= |chunks| && ReceiveAll(chunks[..i]).closed
    ensures ReceiveAll(chunks) == ReceiveAll(chunks[..i])
    decreases |chunks| - i
  {
    if i < |chunks| {
      assert chunks[..i + 1][..i] == chunks[..i];
      StaysClosed(chunks, i + 1);
    } else {
      assert chunks[..i] == chunks;
    }
  }

  // ---------- Main results ----------

  /** Up to and including the first Close. */
  function UpToClose(fs: seq<Frame>): seq<Frame> {
    if fs == [] then [] else if fs[0].opcode == Close then [fs[0]] else [fs[0]] + UpToClose(fs[1..])
  }

  lemma {:induction false} UpToCloseConcat(a: seq<Frame>, b: seq<Frame>)
    ensures UpToClose(a + b) == if HasClose(a) then UpToClose(a) else a + UpToClose(b)
  {
    if a == [] {
      assert a + b == b;
    } else {
      assert (a + b)[1..] == a[1..] + b;
      UpToCloseConcat(a[1..], b);
      assert a == [a[0]] + a[1..];
      assert HasClose(a) <==> a[0].opcode == Close || HasClose(a[1..]) by {
        if HasClose(a) && a[0].opcode != Close {
          var i :| 0 <= i < |a| && a[i].opcode == Close;
          assert a[1..][i - 1].opcode == Close;
        }
        if HasClose(a[1..]) {
          var i :| 0 <= i < |a[1..]| && a[1..][i].opcode == Close;
          assert a[i + 1].opcode == Close;
        }
      }
    }
  }

  predicate Ends(d: Drained) { d.error || HasClose(d.frames) }

  lemma HasCloseConcat(a: seq<Frame>, b: seq<Frame>)
    ensures HasClose(a + b) <==> HasClose(a) || HasClose(b)
  {
    if HasClose(a) {
      var i :| 0 <= i < |a| && a[i].opcode == Close;
      assert (a + b)[i].opcode == Close;
    }
    if HasClose(b) {
      var i :| 0 <= i < |b| && b[i].opcode == Close;
      assert (a + b)[|a| + i].opcode == Close;
    }
  }

  /**
   However the socket splits the stream into reads, the frames handed over up to the first Close
   or protocol error, and whether the session closed, are those of parsing the stream at once; while
   open, all of its frames were handed over and the leftover is bounded.
   */
  lemma {:induction false} ChunksImmaterial(chunks: seq<seq<byte>>)
    requires forall i :: 0 <= i < |chunks| ==> chunks[i] != []
    ensures var s := ReceiveAll(chunks); var d := Drain(Concat(chunks));
      && UpToClose(s.handled) == UpToClose(d.frames)
      && (s.closed <==> Ends(d))
      && (!s.closed ==> s.handled == d.frames && s.buf == d.rest && |s.buf| < MAX_PAYLOAD + 14)
  {
    if chunks == [] {
      EmptyNeedsMore();
    } else {
      var n := |chunks| - 1;
      var before, all := Concat(chunks[..n]), Concat(chunks);
      ChunksImmaterial(chunks[..n]);
      FramesAreIncremental();
      DrainExtends(ParseFrame, before, chunks[n]);
      var s, d := ReceiveAll(chunks[..n]), Drain(before);
      var e := Drain(d.rest + chunks[n]);
      UpToCloseConcat(d.frames, e.frames);
      HasCloseConcat(d.frames, e.frames);
      if !s.closed && !Drain(all).error {
        RestIsBounded(ParseFrame, all);
      }
    }
  }

  /** Two ways of splitting one stream cannot be told apart before the close. */
  lemma SplitsAgree(a: seq<seq<byte>>, b: seq<seq<byte>>)
    requires forall i :: 0 <= i < |a| ==> a[i] != []
    requires forall i :: 0 <= i < |b| ==> b[i] != []
    requires Concat(a) == Concat(b)
    ensures UpToClose(ReceiveAll(a).handled) == UpToClose(ReceiveAll(b).handled)
    ensures ReceiveAll(a).closed == ReceiveAll(b).closed
  {
    ChunksImmaterial(a);
    ChunksImmaterial(b);
  }

  /** Nonempty reads that make up the stream. */
  ghost predicate Splits(chunks: seq<seq<byte>>, stream: seq<byte>) {
    (forall i :: 0 <= i < |chunks| ==> chunks[i] != []) && Concat(chunks) == stream
  }

  lemma {:induction false} UpToCloseIsPrefix(fs: seq<Frame>)
    ensures UpToClose(fs) <= fs
  {
    if fs != [] {
      UpToCloseIsPrefix(fs[1..]);
      assert fs == [fs[0]] + fs[1..];
    }
  }

  /** However it is split, no frame is handled that the whole stream does not hold. */
  lemma {:induction false} HandledIsPrefix(chunks: seq<seq<byte>>)
    requires forall i :: 0 <= i < |chunks| ==> chunks[i] != []
    ensures ReceiveAll(chunks).handled <= Drain(Concat(chunks)).frames
  {
    if chunks != [] {
      var n := |chunks| - 1;
      var before := Concat(chunks[..n]);
      HandledIsPrefix(chunks[..n]);
      ChunksImmaterial(chunks[..n]);
      PrefixDrains(before, chunks[n]);
      var s := ReceiveAll(chunks[..n]);
      if s.closed {
        assert ReceiveAll(chunks).handled == s.handled <= Drain(before).frames;
      } else {
        assert ReceiveAll(chunks).handled == Drain(before).frames + Drain(s.buf + chunks[n]).frames;
      }
    }
  }

  /** What later bytes add to the frames of a stream. */
  lemma {:induction false} PrefixDrains(a: seq<byte>, b: seq<byte>)
    ensures var d := Drain(a);
      && d.frames <= Drain(a + b).frames
      && (!d.error ==> Drain(a + b).frames == d.frames + Drain(d.rest + b).frames)
  {
    FramesAreIncremental();
    DrainExtends(ParseFrame, a, b);
  }

  /** A stream can be cut behind its `k`-th frame. */
  lemma {:induction false} CutAfter(buf: seq<byte>, k: nat) returns (n: nat)
    requires k <= |Drain(buf).frames|
    ensures n <= |buf| && Drain(buf[..n]) == Drained(Drain(buf).frames[..k], [], false)
    decreases |buf|
  {
    if k == 0 {
      n := 0;
      EmptyNeedsMore();
      assert buf[..0] == [];
    } else {
      var r := ParseFrame(buf);
      ConsumedWithin(buf);
      var m := CutAfter(buf[r.consumed..], k - 1);
      n := r.consumed + m;
      var own, later := buf[..r.consumed], buf[r.consumed..][..m];
      assert buf[..n] == own + later;
      FrameAlone(buf);
      VerdictStands(own, later);
      assert (own + later)[r.consumed..] == later;
      assert Drain(buf).frames[..k] == [r.frame] + Drain(buf[r.consumed..]).frames[..k - 1];
    }
  }

  /** Cut behind a Close that is not the last frame, the two reads handle fewer frames than the one. */
  lemma {:induction false} CutAtClose(stream: seq<byte>) returns (x: seq<byte>, y: seq<byte>)
    requires UpToClose(Drain(stream).frames) != Drain(stream).frames
    ensures x != [] && y != [] && x + y == stream
    ensures ReceiveAll([x, y]).handled != ReceiveAll([x + y]).handled
  {
    var fs := Drain(stream).frames;
    var upTo := UpToClose(fs);
    UpToCloseIsPrefix(fs);
    var n := CutAfter(stream, |upTo|);
    x, y := stream[..n], stream[n..];
    assert x + y == stream && fs[..|upTo|] == upTo;
    CloseEndsIt(fs);
    EmptyNeedsMore();
    assert stream[..|stream|] == stream;
    assert x != [] && y != [];
    TwoReads(x, y);
    OneRead(x + y);
  }

  lemma {:induction false} CloseEndsIt(fs: seq<Frame>)
    requires UpToClose(fs) != fs
    ensures UpToClose(fs) != [] && HasClose(UpToClose(fs))
  {
    assert fs != [];
    if fs[0].opcode == Close {
      assert UpToClose(fs)[0].opcode == Close;
    } else {
      assert fs == [fs[0]] + fs[1..];
      CloseEndsIt(fs[1..]);
      HasCloseConcat([fs[0]], UpToClose(fs[1..]));
    }
  }

  /** A read that closes the session is the last one. */
  lemma {:induction false} TwoReads(x: seq<byte>, y: seq<byte>)
    requires x != [] && Ends(Drain(x))
    ensures ReceiveAll([x, y]).handled == Drain(x).frames
  {
    OneRead(x);
    var one, two: seq<seq<byte>> := [x], [x, y];
    assert two[..1] == one;
  }

  /**
   The exact condition: every split of the stream leads to the same frames being handled if and
   only if no frame follows its first Close.
   */
  lemma {:induction false} SplitImmaterialIff(stream: seq<byte>)
    ensures (forall a, b :: Splits(a, stream) && Splits(b, stream) ==> ReceiveAll(a).handled == ReceiveAll(b).handled)
      <==> UpToClose(Drain(stream).frames) == Drain(stream).frames
  {
    var fs := Drain(stream).frames;
    if UpToClose(fs) == fs {
      forall a, b | Splits(a, stream) && Splits(b, stream) ensures ReceiveAll(a).handled == ReceiveAll(b).handled {
        AllHandled(a);
        AllHandled(b);
      }
    } else {
      var x, y := CutAtClose(stream);
      ConcatOneTwo(x, y);
      assert Splits([x, y], stream) && Splits([x + y], stream);
    }
  }

  lemma {:induction false} AllHandled(chunks: seq<seq<byte>>)
    requires forall i :: 0 <= i < |chunks| ==> chunks[i] != []
    requires UpToClose(Drain(Concat(chunks)).frames) == Drain(Concat(chunks)).frames
    ensures ReceiveAll(chunks).handled == Drain(Concat(chunks)).frames
  {
    ChunksImmaterial(chunks);
    HandledIsPrefix(chunks);
    UpToCloseIsPrefix(ReceiveAll(chunks).handled);
  }

  lemma ConcatOneTwo(x: seq<byte>, y: seq<byte>)
    ensures Concat([x, y]) == x + y && Concat([x + y]) == x + y
  {
    var none, one, two, whole: seq<seq<byte>> := [], [x], [x, y], [x + y];
    assert two[..1] == one && one[..0] == none && whole[..0] == none;
    assert Concat(none) == [];
    assert Concat(one) == [] + x;
  }

  /** After a Close the rest of its own read is still handled, so there the split shows. */
  lemma ReadAfterCloseIsHandled(text: seq<byte>)
    requires |text| <= MAX_PAYLOAD
    ensures var c, t := EncodeFrame(Close, [], false, []), EncodeFrame(Text, text, false, []);
      && ReceiveAll([c + t]).handled == [Frame(Close, true, false, []), Frame(Text, true, false, text)]
      && ReceiveAll([c, t]).handled == [Frame(Close, true, false, [])]
  {
    var c, t := EncodeFrame(Close, [], false, []), EncodeFrame(Text, text, false, []);
    var fc, ft := Frame(Close, true, false, []), Frame(Text, true, false, text);
    EmptyNeedsMore();
    DrainEncoded(Close, [], t);
    DrainEncoded(Close, [], []);
    DrainEncoded(Text, text, []);
    assert c + [] == c && t + [] == t;
    SplitShows(c, t, fc, ft);
  }

  lemma SplitShows(c: seq<byte>, t: seq<byte>, fc: Frame, ft: Frame)
    requires c != [] && fc.opcode == Close
    requires Drain(c).frames == [fc] && Drain(c + t).frames == [fc, ft]
    ensures ReceiveAll([c + t]).handled == [fc, ft] && ReceiveAll([c, t]).handled == [fc]
  {
    OneRead(c + t);
    OneRead(c);
    var one, two: seq<seq<byte>> := [c], [c, t];
    assert two[..1] == one;
    CloseAppended([], fc);
    assert [] + [fc] == [fc];
  }

  lemma OneRead(chunk: seq<byte>)
    requires chunk != []
    ensures ReceiveAll([chunk]) == Session(Drain(chunk).rest, Drain(chunk).frames, Ends(Drain(chunk)))
  {
    var none, one: seq<seq<byte>> := [], [chunk];
    assert one[..0] == none;
    assert [] + chunk == chunk;
    assert [] + Drain(chunk).frames == Drain(chunk).frames;
  }

  // ---------- What reaches the PTY and the client ----------

  /** The payloads of the data frames, whose codes are 0, 1 and 2, in order. */
  lemma {:induction false} PtyTakesData(fs: seq<Frame>, f: Frame)
    ensures ToPty([]) == []
    ensures ToPty(fs + [f]) == ToPty(fs) + if Code(f.opcode) <= 2 then f.payload else []
  {
    assert (fs + [f])[..|fs|] == fs;
  }

  /** A pong for each ping, in order, with its payload. */
  function Pongs(fs: seq<Frame>): seq<Frame> {
    if fs == [] then []
    else
      var f := fs[|fs| - 1];
      Pongs(fs[..|fs| - 1]) + if Code(f.opcode) == 9 then [Frame(Pong, true, false, f.payload)] else []
  }

  predicate AllFit(fs: seq<Frame>) { forall i :: 0 <= i < |fs| ==> Fits(fs[i].opcode, |fs[i].payload|) }

  /** A client that parses what the pump sends back reads exactly those pongs. */
  lemma {:induction false} AnswersArePongs(fs: seq<Frame>)
    requires AllFit(fs)
    ensures Drain(ToWs(fs)) == Drained(Pongs(fs), [], false)
  {
    if fs == [] {
      EmptyNeedsMore();
    } else {
      var n := |fs| - 1;
      AnswersArePongs(fs[..n]);
      if fs[n].opcode == Ping {
        OnePongMore(ToWs(fs[..n]), Pongs(fs[..n]), fs[n].payload);
      } else {
        assert ToWs(fs) == ToWs(fs[..n]) && Pongs(fs) == Pongs(fs[..n]);
      }
    }
  }

  lemma {:induction false} OnePongMore(sent: seq<byte>, pongs: seq<Frame>, payload: seq<byte>)
    requires Drain(sent) == Drained(pongs, [], false) && |payload| <= 125
    ensures Drain(sent + EncodeFrame(Pong, payload, false, []))
         == Drained(pongs + [Frame(Pong, true, false, payload)], [], false)
  {
    var w := EncodeFrame(Pong, payload, false, []);
    FramesAreIncremental();
    DrainExtends(ParseFrame, sent, w);
    DrainEncoded(Pong, payload, []);
    EmptyNeedsMore();
    assert w + [] == w && [] + w == w;
  }

  /** The frames the pump handles fit, so the answer holds of every session. */
  lemma {:induction false} DrainedFit(buf: seq<byte>)
    ensures AllFit(Drain(buf).frames)
    decreases |buf|
  {
    FramesAreIncremental();
    assert Measured(ParseFrame, buf);
    if ParseFrame(buf).Parsed? {
      DrainedFit(buf[ParseFrame(buf).consumed..]);
      ParsedFits(buf);
    }
  }

  lemma ParsedFits(buf: seq<byte>)
    requires ParseFrame(buf).Parsed?
    ensures var f := ParseFrame(buf).frame; Fits(f.opcode, |f.payload|)
  {
  }

  lemma {:induction false} HandledFit(chunks: seq<seq<byte>>)
    ensures AllFit(ReceiveAll(chunks).handled)
  {
    if chunks != [] {
      var n := |chunks| - 1;
      HandledFit(chunks[..n]);
      DrainedFit(ReceiveAll(chunks[..n]).buf + chunks[n]);
    }
  }

  /** Over any reads: the client gets back exactly one pong for each ping handled. */
  lemma SessionAnswers(chunks: seq<seq<byte>>)
    ensures Drain(ToWs(ReceiveAll(chunks).handled)) == Drained(Pongs(ReceiveAll(chunks).handled), [], false)
  {
    HandledFit(chunks);
    AnswersArePongs(ReceiveAll(chunks).handled);
  }
}
