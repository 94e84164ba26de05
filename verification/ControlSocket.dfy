/** Reading a request off a connection: daemon/control_socket.cpp. */
module ControlSocket {
  import opened Arithmetic
  import opened Text
  import opened HttpHead

  const HEAD_CAP := 8192
  const BUFFER := 1024

  // ---------- The connection ----------

  /** How many bytes read(2) delivers of `avail`: at most `max`, at least one, as the next size says. */
  function Delivered(sizes: seq<nat>, max: nat, avail: nat): (n: nat)
    requires max > 0
    ensures n <= max && n <= avail && (n == 0 <==> avail == 0)
  {
    var want := if sizes == [] then max else sizes[0];
    Min(Min(max, avail), if want == 0 then 1 else want)
  }

  function Later(sizes: seq<nat>): seq<nat> { if sizes == [] then [] else sizes[1..] }

  /** A peer that sends `stream` and then closes or fails; `sizes` says how its bytes fall into reads. */
  class Conn {
    const stream: string
    var at: nat
    var sizes: seq<nat>

    ghost predicate Valid() reads this { at <= |stream| }

    constructor (stream: string, sizes: seq<nat>)
      ensures Valid() && this.stream == stream && at == 0 && this.sizes == sizes
    {
      this.stream, this.at, this.sizes := stream, 0, sizes;
    }

    /** The next bytes; none once the stream is used up. */
    method Read(max: nat) returns (chunk: string)
      requires Valid() && max > 0
      modifies this
      ensures Valid() && sizes == Later(old(sizes))
      ensures at == old(at) + Delivered(old(sizes), max, |stream| - old(at))
      ensures chunk == stream[old(at)..at]
    {
      var n := Delivered(sizes, max, |stream| - at);
      chunk := stream[at..at + n];
      at := at + n;
      sizes := Later(sizes);
    }

    /** readUntilNeedle with the head's needle and cap. */
    method ReadHead() returns (bad: bool, buf: string)
      requires Valid() && at == 0
      modifies this
      ensures Valid() && buf == stream[..at]
      ensures var end := HeadRead(stream, 0, old(sizes)); bad == end.None? && (!bad ==> at == end.value)
      ensures !bad ==> Find(buf, EMPTY_LINE, 0) != NPOS
    {
      buf := "";
      while true
        invariant Valid() && buf == stream[..at]
        invariant HeadRead(stream, 0, old(sizes)) == HeadRead(stream, at, sizes)
        decreases |stream| - at
      {
        if Find(buf, EMPTY_LINE, 0) != NPOS { return false, buf; }
        if |buf| >= HEAD_CAP { return true, buf; }
        var chunk := Read(BUFFER);
        if chunk == "" { return true, buf; }
        buf := buf + chunk;
      }
    }

    /** readExact. */
    method ReadExact(want: nat) returns (bad: bool, buf: string)
      requires Valid()
      modifies this
      ensures Valid() && old(at) <= at && buf == stream[old(at)..at]
      ensures bad <==> |stream| - old(at) < want
      ensures at == if bad then |stream| else old(at) + want
    {
      buf, bad := "", false;
      while |buf| < want
        invariant Valid() && old(at) <= at && buf == stream[old(at)..at] && |buf| <= want
        decreases want - |buf|
      {
        var remaining := want - |buf|;
        var chunk := Read(if remaining > BUFFER then BUFFER else remaining);
        if chunk == "" { return true, buf; }
        buf := buf + chunk;
      }
    }

    /** handleConnection up to the dispatch. */
    method Receive() returns (r: Outcome)
      requires Valid() && at == 0
      modifies this
      ensures r == Served(stream, old(sizes))
    {
      var bad, blob := ReadHead();
      if bad { return MalformedHead; }
      r := ReceiveRest(blob);
    }

    /** The head is in the blob; the body may be in part. */
    method ReceiveRest(blob: string) returns (r: Outcome)
      requires Valid() && blob == stream[..at] && Find(blob, EMPTY_LINE, 0) != NPOS
      modifies this
      ensures HasHead(stream) && r == Parse(stream)
    {
      var end := Find(blob, EMPTY_LINE, 0) + 4;
      var head, carried := blob[..end], blob[end..];
      HeadOfPrefix(stream, at);
      var parsed := ParseHttpHead(head);
      if parsed.Bad? { return BadHead(parsed.error); }
      var short, body := ReadBody(carried, end, parsed.contentLength);
      if short { return ShortBody; }
      return Dispatch(parsed.verb, parsed.path, body);
    }

    /** The body from `end`, of which `carried` came with the head. */
    method ReadBody(carried: string, end: nat, length: nat) returns (short: bool, body: string)
      requires Valid() && end <= at && carried == stream[end..at]
      modifies this
      ensures short <==> |stream| < end + length
      ensures !short ==> body == stream[end..end + length]
    {
      short, body := false, carried;
      if length > |body| {
        var more;
        short, more := ReadExact(length - |body|);
        body := body + more;
      } else if |body| > length {
        body := body[..length];
      }
    }
  }

  // ---------- What the reads amount to ----------

  datatype Outcome =
    | MalformedHead
    | BadHead(error: Error)
    | ShortBody
    | Dispatch(verb: string, path: string, body: string)

  /** How many of `size` bytes are taken when `found` holds of them, if it does before the cap. */
  function ReadUntil(size: nat, at: nat, sizes: seq<nat>, found: nat -> bool): (r: Option<nat>)
    requires at <= size
    ensures r.Some? ==> at <= r.value <= size
    decreases size - at
  {
    if found(at) then Some(at)
    else if at >= HEAD_CAP then None
    else
      var n := Delivered(sizes, BUFFER, size - at);
      if n == 0 then None else ReadUntil(size, at + n, Later(sizes), found)
  }

  /** The first `n` bytes hold the end of the head. */
  function HeadIn(stream: string): nat -> bool {
    (n: nat) => n <= |stream| && Find(stream[..n], EMPTY_LINE, 0) != NPOS
  }

  /** How many bytes are taken when the head's end shows up, if it does before the cap. */
  function HeadRead(stream: string, at: nat, sizes: seq<nat>): Option<nat>
    requires at <= |stream|
  {
    ReadUntil(|stream|, at, sizes, HeadIn(stream))
  }

  /** Where the head ends, past its empty line. */
  function HeadEnd(stream: string): int { Find(stream, EMPTY_LINE, 0) + 4 }

  predicate HasHead(stream: string) { Find(stream, EMPTY_LINE, 0) != NPOS }

  /** The request in a stream that has a head, however it arrives. */
  function Parse(stream: string): Outcome
    requires HasHead(stream)
  {
    Assembled(stream, HeadEnd(stream), ScanHead(stream[..HeadEnd(stream)]))
  }

  /** The outcome once the head, which ends at `end`, is parsed. */
  function Assembled(stream: string, end: nat, parsed: Parsed): Outcome
    requires end <= |stream|
  {
    match parsed
    case Bad(e) => BadHead(e)
    case Head(m, p, n) => if |stream| < end + n then ShortBody else Dispatch(m, p, stream[end..end + n])
  }

  /** The outcome when the bytes fall into reads as `sizes` says. */
  function Served(stream: string, sizes: seq<nat>): Outcome {
    if HeadRead(stream, 0, sizes).None? then MalformedHead
    else
      HeadFound(stream, 0, sizes);
      Parse(stream)
  }

  lemma {:induction false} HeadFound(stream: string, at: nat, sizes: seq<nat>)
    requires at <= |stream|
    ensures var r := HeadRead(stream, at, sizes);
      r.Some? ==> Find(stream[..r.value], EMPTY_LINE, 0) != NPOS && HasHead(stream) && HeadEnd(stream) <= r.value
    decreases |stream| - at
  {
    FindInPrefix(stream, at);
    if Find(stream[..at], EMPTY_LINE, 0) == NPOS && at < HEAD_CAP && at < |stream| {
      HeadFound(stream, at + Delivered(sizes, BUFFER, |stream| - at), Later(sizes));
    }
  }

  /** The first empty line of a prefix is that of the whole. */
  lemma {:induction false} FindInPrefix(stream: string, at: nat)
    requires at <= |stream|
    ensures Find(stream[..at], EMPTY_LINE, 0) != NPOS <==> HasHead(stream) && HeadEnd(stream) <= at
    ensures Find(stream[..at], EMPTY_LINE, 0) != NPOS
      ==> Find(stream[..at], EMPTY_LINE, 0) == Find(stream, EMPTY_LINE, 0)
  {
    var k, j := Find(stream[..at], EMPTY_LINE, 0), Find(stream, EMPTY_LINE, 0);
    if k != NPOS { AtPrefix(stream, at, k); }
    if j != NPOS && j + 4 <= at { AtPrefix(stream, at, j); }
    if k != NPOS && j != NPOS && j + 4 <= at {
      assert j <= k && k <= j;
    }
  }

  lemma {:induction false} AtPrefix(s: string, at: nat, i: nat)
    requires at <= |s| && i + 4 <= at
    ensures At(s[..at], EMPTY_LINE, i) <==> At(s, EMPTY_LINE, i)
  {
    assert s[..at][i..i + 4] == s[i..i + 4];
  }

  lemma {:induction false} HeadOfPrefix(stream: string, at: nat)
    requires at <= |stream| && Find(stream[..at], EMPTY_LINE, 0) != NPOS
    ensures var end := Find(stream[..at], EMPTY_LINE, 0) + 4;
      HasHead(stream) && end == HeadEnd(stream) && stream[..at][..end] == stream[..end]
  {
    FindInPrefix(stream, at);
  }

  // ---------- How the bytes are split does not matter ----------

  /** The most bytes that can be in the buffer: the last read starts below the cap. */
  const REACH := HEAD_CAP - 1 + BUFFER

  lemma {:induction false} HeadWithinCap(stream: string, at: nat, sizes: seq<nat>)
    requires at <= |stream| && HasHead(stream) && HeadEnd(stream) <= HEAD_CAP
    ensures HeadRead(stream, at, sizes).Some?
    decreases |stream| - at
  {
    FindInPrefix(stream, at);
    if Find(stream[..at], EMPTY_LINE, 0) == NPOS {
      HeadWithinCap(stream, at + Delivered(sizes, BUFFER, |stream| - at), Later(sizes));
    }
  }

  lemma {:induction false} HeadBeyondReach(stream: string, at: nat, sizes: seq<nat>)
    requires at <= |stream| && at <= REACH && !(HasHead(stream) && HeadEnd(stream) <= REACH)
    ensures HeadRead(stream, at, sizes).None?
    decreases |stream| - at
  {
    FindInPrefix(stream, at);
    if at < HEAD_CAP && at < |stream| {
      HeadBeyondReach(stream, at + Delivered(sizes, BUFFER, |stream| - at), Later(sizes));
    }
  }

  /** A head that ends within 8192 bytes: one outcome for every split, read off the stream itself. */
  lemma {:induction false} EverySplitServes(stream: string, sizes: seq<nat>)
    requires HasHead(stream) && HeadEnd(stream) <= 8192
    ensures Served(stream, sizes) == Parse(stream)
    ensures Parse(stream).BadHead? ==> !Structural(Parse(stream).error)
    ensures Parse(stream).Dispatch? ==> |Parse(stream).body| <= 65536
  {
    HeadWithinCap(stream, 0, sizes);
    ParseIsSound(stream);
  }

  /** What is dispatched has at most 65536 bytes of body; a refused head is refused for one of its lines. */
  lemma {:induction false} ParseIsSound(stream: string)
    requires HasHead(stream)
    ensures Parse(stream).BadHead? ==> !Structural(Parse(stream).error)
    ensures Parse(stream).Dispatch? ==> |Parse(stream).body| <= MAX_BODY
  {
    HeadIsWhole(stream);
    var head := stream[..HeadEnd(stream)];
    StructuralErrorsUnreachable(head);
    BodyIsCapped(head);
    AssembledIsSound(stream, HeadEnd(stream), ScanHead(head));
  }

  lemma AssembledIsSound(stream: string, end: nat, parsed: Parsed)
    requires end <= |stream| && (parsed.Bad? ==> !Structural(parsed.error))
    requires parsed.Head? ==> parsed.contentLength <= MAX_BODY
    ensures var r := Assembled(stream, end, parsed);
      (r.BadHead? ==> !Structural(r.error)) && (r.Dispatch? ==> |r.body| <= MAX_BODY)
  {
  }

  lemma {:induction false} HeadIsWhole(stream: string)
    requires HasHead(stream)
    ensures var head := stream[..HeadEnd(stream)];
      Find(head, EMPTY_LINE, 0) != NPOS && Find(head, EMPTY_LINE, 0) + 4 == |head|
  {
    FindInPrefix(stream, HeadEnd(stream));
  }

  function Ones(k: nat): seq<nat> { if k == 0 then [] else [1] + Ones(k - 1) }

  lemma {:induction false} OneByte(size: nat, at: nat, later: seq<nat>, found: nat -> bool)
    requires at < size && at < HEAD_CAP && !found(at)
    ensures ReadUntil(size, at, [1] + later, found) == ReadUntil(size, at + 1, later, found)
  {
    assert Later([1] + later) == later;
  }

  /** Byte by byte up to `at + k`. */
  lemma {:induction false} OneByOne(size: nat, at: nat, k: nat, found: nat -> bool)
    requires at + k <= size && at + k <= HEAD_CAP && forall j :: at <= j < at + k ==> !found(j)
    ensures ReadUntil(size, at, Ones(k), found) == ReadUntil(size, at + k, [], found)
    decreases k
  {
    if k > 0 {
      OneByte(size, at, Ones(k - 1), found);
      OneByOne(size, at + 1, k - 1, found);
    }
  }

  /** A head that ends at or after `k` is not in before. */
  lemma {:induction false} HeadByBytes(stream: string, k: nat)
    requires HasHead(stream) && k <= HeadEnd(stream) && k <= HEAD_CAP
    ensures k <= |stream| && HeadRead(stream, 0, Ones(k)) == HeadRead(stream, k, [])
  {
    forall j | 0 <= j < k ensures !HeadIn(stream)(j) { FindInPrefix(stream, j); }
    OneByOne(|stream|, 0, k, HeadIn(stream));
  }

  /** Between the cap and the reach the outcome does depend on the split. */
  lemma {:induction false} SplitsDisagree(stream: string)
    requires HasHead(stream) && 8192 < HeadEnd(stream) <= 9215
    ensures Served(stream, Ones(8192)) == MalformedHead
    ensures Served(stream, Ones(8191)) == Parse(stream) != MalformedHead
  {
    RefusedByBytes(stream);
    ServedByLongRead(stream);
  }

  lemma {:induction false} RefusedByBytes(stream: string)
    requires HasHead(stream) && HEAD_CAP < HeadEnd(stream)
    ensures HeadRead(stream, 0, Ones(HEAD_CAP)) == None
  {
    HeadByBytes(stream, HEAD_CAP);
    FindInPrefix(stream, HEAD_CAP);
  }

  lemma {:induction false} ServedByLongRead(stream: string)
    requires HasHead(stream) && HEAD_CAP < HeadEnd(stream) <= REACH
    ensures HeadRead(stream, 0, Ones(HEAD_CAP - 1)).Some?
  {
    HeadByBytes(stream, HEAD_CAP - 1);
    LastRead(stream, HEAD_CAP - 1);
  }

  /** From just below the cap one full read reaches the end of the head. */
  lemma {:induction false} LastRead(stream: string, at: nat)
    requires HasHead(stream) && at < HEAD_CAP && at < HeadEnd(stream) <= at + BUFFER
    ensures at <= |stream| && HeadRead(stream, at, []).Some?
  {
    FindInPrefix(stream, at);
    var end := at + Delivered([], BUFFER, |stream| - at);
    FindInPrefix(stream, end);
    assert HeadRead(stream, at, []) == HeadRead(stream, end, []);
  }

  /** The outcome is the same for all splits exactly when the head does not end in that window. */
  lemma {:induction false} SplitImmaterialIff(stream: string)
    ensures (forall a, b :: Served(stream, a) == Served(stream, b)) <==>
      !(HasHead(stream) && 8192 < HeadEnd(stream) <= 9215)
  {
    if HasHead(stream) && 8192 < HeadEnd(stream) <= 9215 {
      SplitsDisagree(stream);
    } else {
      forall a, b ensures Served(stream, a) == Served(stream, b) {
        if HasHead(stream) && HeadEnd(stream) <= 8192 {
          EverySplitServes(stream, a);
          EverySplitServes(stream, b);
        } else {
          HeadBeyondReach(stream, 0, a);
          HeadBeyondReach(stream, 0, b);
        }
      }
    }
  }

  /** A head, the body it declares, and anything after. */
  lemma {:induction false} ParseIs(head: string, m: string, p: string, body: string, more: string)
    requires ScanHead(head) == Head(m, p, |body|)
    requires |head| >= 4 && Find(head + (body + more), EMPTY_LINE, 0) + 4 == |head|
    ensures HasHead(head + (body + more)) && Parse(head + (body + more)) == Dispatch(m, p, body)
  {
    var stream := head + (body + more);
    assert stream[..|head|] == head;
    AssembledIs(head, m, p, body, more);
  }

  lemma AssembledIs(head: string, m: string, p: string, body: string, more: string)
    ensures Assembled(head + (body + more), |head|, Head(m, p, |body|)) == Dispatch(m, p, body)
  {
    var stream := head + (body + more);
    assert stream[|head|..|head| + |body|] == body;
  }

  lemma {:induction false} RequestIsDeclared(m: string, p: string, v: string, headers: seq<string>)
    requires ValidMethod(m) && ValidPath(p) && ValidVersion(v) && HeaderLines(headers)
      && FirstWrong(headers, HeaderOf).None?
    ensures var line := RequestText(m, p, v);
      CrlfFree(line) && ScanHead(Block(line, headers)) == Head(m, p, LastLength(headers, 0, HeaderOf))
  {
    var line := RequestText(m, p, v);
    assert CrlfFree(line);
    ScanIsDeclared(line, headers);
    RequestAccepts(m, p, v);
  }

  /** A request whose headers declare its body is served as its client wrote it. */
  lemma {:induction false} RequestServed(
    m: string, p: string, v: string, headers: seq<string>, body: string, more: string, sizes: seq<nat>)
    requires ValidMethod(m) && ValidPath(p) && ValidVersion(v) && HeaderLines(headers)
    requires FirstWrong(headers, HeaderOf).None? && LastLength(headers, 0, HeaderOf) == |body|
    requires |Block(RequestText(m, p, v), headers)| <= HEAD_CAP
    ensures Served(Block(RequestText(m, p, v), headers) + (body + more), sizes) == Dispatch(m, p, body)
  {
    var line := RequestText(m, p, v);
    var head := Block(line, headers);
    RequestIsDeclared(m, p, v, headers);
    BlockEnds(line, headers, body + more);
    assert |head| >= 4;
    ParseIs(head, m, p, body, more);
    EverySplitServes(head + (body + more), sizes);
  }

  /** Header lines, each of another name than Content-Length. */
  ghost predicate Others(headers: seq<string>) {
    forall k :: 0 <= k < |headers| ==> CrlfFree(headers[k]) && |headers[k]| <= 4096 && OtherHeader(headers[k])
  }

  lemma OthersAreIgnored(headers: seq<string>)
    requires Others(headers)
    ensures HeaderLines(headers) && forall k :: 0 <= k < |headers| ==> HeaderOf(headers[k]) == Ignored
  {
    forall k | 0 <= k < |headers| ensures headers[k] != "" && HeaderOf(headers[k]) == Ignored {
      OtherNameIgnored(headers[k]);
    }
  }

  /** The header of a client that sends `n` bytes. */
  function LengthHeader(n: nat): string { "Content-Length: " + Dec(n) }

  lemma LengthHeaderDeclares(n: nat)
    requires n <= 65536
    ensures CrlfFree(LengthHeader(n)) && HeaderOf(LengthHeader(n)) == Length(n)
  {
    var name := "Content-Length";
    assert NameIs(name, CONTENT_LENGTH);
    assert HeaderText(name, " ", Dec(n)) == LengthHeader(n);
    assert Pow10(3) == 1000 && Pow10(5) == 100000;
    DecSize(n, 5);
    ContentLengthDeclares(name, " ", n);
    var line := LengthHeader(n);
    assert forall i :: 16 <= i < |line| ==> line[i] == Dec(n)[i - 16] && IsDigit(line[i]);
  }

  lemma {:induction false} DecSize(n: nat, w: nat)
    requires 0 < w && n < Pow10(w)
    ensures |Dec(n)| <= w
  {
    if n >= 10 {
      assert w > 1 by { assert Pow10(1) == 10; }
      DecSize(n / 10, w - 1);
    }
  }

  /**
   A request that carries `Content-Length: n` with the length of its body among other headers
   reaches the dispatcher as its client wrote it, whatever the split and whatever follows.
   */
  lemma {:induction false} RequestDelivered(m: string, p: string, v: string, before: seq<string>, after: seq<string>,
      body: string, more: string, sizes: seq<nat>)
    requires ValidMethod(m) && ValidPath(p) && ValidVersion(v) && Others(before) && Others(after) && |body| <= 65536
    requires |Block(RequestText(m, p, v), before + [LengthHeader(|body|)] + after)| <= 8192
    ensures Served(Block(RequestText(m, p, v), before + [LengthHeader(|body|)] + after) + (body + more), sizes)
         == Dispatch(m, p, body)
  {
    OthersAreIgnored(before);
    OthersAreIgnored(after);
    LengthHeaderDeclares(|body|);
    OneDeclares(before, LengthHeader(|body|), after, |body|, 0);
    RequestServed(m, p, v, before + [LengthHeader(|body|)] + after, body, more, sizes);
  }

  /** Without such a header the body is empty, whatever follows the head. */
  lemma {:induction false} BodilessDelivered(
    m: string, p: string, v: string, headers: seq<string>, more: string, sizes: seq<nat>)
    requires ValidMethod(m) && ValidPath(p) && ValidVersion(v) && Others(headers)
    requires |Block(RequestText(m, p, v), headers)| <= 8192
    ensures Served(Block(RequestText(m, p, v), headers) + more, sizes) == Dispatch(m, p, "")
  {
    OthersAreIgnored(headers);
    OthersIgnored(headers, 0);
    RequestServed(m, p, v, headers, "", more, sizes);
    assert "" + more == more;
  }
}
