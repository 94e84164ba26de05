/** WebSocket frames: parseFrame and encodeFrame of daemon/ws_pure.cpp (section 5 of RFC 6455). */
module WsFrame {
  import opened Bits

  type byte = x: int | 0 <= x < 0x100

  // ---------- Bytes ----------

  function Xor(a: byte, b: byte): byte {
    XorBound(a, b, 8);
    assert Pow2(8) == 256 by { assert Pow2(4) == 16 && Pow2(6) == 64; }
    XorBits(a, b, 8)
  }

  lemma XorInverse(a: byte, b: byte)
    ensures Xor(Xor(a, b), b) == a
  {
    assert Pow2(8) == 256 by { assert Pow2(4) == 16 && Pow2(6) == 64; }
    XorTwice(a, b, 8);
  }

  /** Network byte order. */
  function BigEndian(s: seq<byte>): nat {
    if s == [] then 0 else 256 * BigEndian(s[..|s| - 1]) + s[|s| - 1]
  }

  /** The low `k` bytes of `n`, most significant first. */
  function BytesOf(n: nat, k: nat): (s: seq<byte>)
    ensures |s| == k
  {
    if k == 0 then [] else BytesOf(n / 256, k - 1) + [n % 256]
  }

  function Pow256(k: nat): nat { if k == 0 then 1 else 256 * Pow256(k - 1) }

  lemma {:induction false} BytesOfValue(n: nat, k: nat)
    requires n < Pow256(k)
    ensures BigEndian(BytesOf(n, k)) == n
  {
    if k > 0 {
      BytesOfValue(n / 256, k - 1);
      assert BytesOf(n, k)[..k - 1] == BytesOf(n / 256, k - 1);
    }
  }

  lemma Pow256Small()
    ensures Pow256(2) == 0x1_0000 && Pow256(8) == 0x1_0000_0000_0000_0000
  {
    assert Pow256(4) == 0x1_0000_0000 && Pow256(6) == 0x1_0000_0000_0000;
  }

  // ---------- Frames ----------

  datatype Opcode = Continuation | Text | Binary | Close | Ping | Pong

  datatype Frame = Frame(opcode: Opcode, fin: bool, masked: bool, payload: seq<byte>)

  /** The int result of parseFrame: 0, negative, or the bytes consumed with the frame filled in. */
  datatype ParseResult = NeedMore | ProtocolError | Parsed(frame: Frame, consumed: nat)

  function Code(op: Opcode): byte {
    match op
    case Continuation => 0x0
    case Text => 0x1
    case Binary => 0x2
    case Close => 0x8
    case Ping => 0x9
    case Pong => 0xA
  }

  predicate IsOpcode(c: int) { c in {0x0, 0x1, 0x2, 0x8, 0x9, 0xA} }

  function OpcodeOf(c: int): (op: Opcode)
    requires IsOpcode(c)
    ensures Code(op) == c
  {
    match c
    case 0x0 => Continuation
    case 0x1 => Text
    case 0x2 => Binary
    case 0x8 => Close
    case 0x9 => Ping
    case _ => Pong
  }

  const MAX_PAYLOAD := 1024 * 1024 // kMaxFramePayload

  /** Payload bytes under a four-byte key; the empty key stands for an unmasked frame. */
  function Masked(s: seq<byte>, key: seq<byte>): (r: seq<byte>)
    requires |key| == 4 || key == []
    ensures |r| == |s|
  {
    if key == [] then s else seq(|s|, k requires 0 <= k < |s| => Xor(s[k], key[k % 4]))
  }

  lemma MaskedTwice(s: seq<byte>, key: seq<byte>)
    requires |key| == 4 || key == []
    ensures Masked(Masked(s, key), key) == s
  {
    forall k | 0 <= k < |s| ensures Masked(Masked(s, key), key)[k] == s[k] {
      if key != [] { XorInverse(s[k], key[k % 4]); }
    }
  }

  /** How many extended length bytes follow the second byte. */
  function ExtLength(len7: nat): nat { if len7 == 126 then 2 else if len7 == 127 then 8 else 0 }

  /** parseFrame as a function of the buffer. */
  function ParseFrame(buf: seq<byte>): ParseResult {
    if |buf| < 2 then NeedMore
    else
      var fin, op, masked, len7 := buf[0] >= 128, buf[0] % 16, buf[1] >= 128, buf[1] % 128;
      if !IsOpcode(op) then ProtocolError
      else if op >= 8 && (!fin || len7 > 125) then ProtocolError
      else
        var pos := 2 + ExtLength(len7);
        if |buf| < pos then NeedMore
        else
          var len := if pos == 2 then len7 else BigEndian(buf[2..pos]);
          if len > MAX_PAYLOAD then ProtocolError
          else ParseBody(buf, OpcodeOf(op), fin, masked, pos, len)
  }

  function ParseBody(buf: seq<byte>, op: Opcode, fin: bool, masked: bool, pos: nat, len: nat): ParseResult
    requires pos <= |buf|
  {
    var start := pos + if masked then 4 else 0;
    if |buf| < start + len then NeedMore
    else Parsed(Frame(op, fin, masked, Masked(buf[start..start + len], buf[pos..start])), start + len)
  }

  /** parseFrame: fills the payload byte by byte. */
  method ParseFrameBytes(buf: seq<byte>) returns (r: ParseResult)
    ensures r == ParseFrame(buf)
  {
    if |buf| < 2 {
      return NeedMore;
    }
    var fin, op := buf[0] >= 128, buf[0] % 16;
    var masked, len := buf[1] >= 128, buf[1] % 128;
    if op !in {0x0, 0x1, 0x2, 0x8, 0x9, 0xA} {
      return ProtocolError;
    }
    if op >= 8 && (!fin || len > 125) {
      return ProtocolError;
    }
    var pos := 2;
    if len == 126 {
      if |buf| < pos + 2 {
        return NeedMore;
      }
      len := buf[pos] as int * 256 + buf[pos + 1];
      TwoBytes(buf[pos..pos + 2]);
      pos := pos + 2;
    } else if len == 127 {
      if |buf| < pos + 8 {
        return NeedMore;
      }
      len := ReadLength(buf[pos..pos + 8]);
      pos := pos + 8;
      if len >= 0x8000_0000_0000_0000 {
        return ProtocolError;
      }
    }
    if len > MAX_PAYLOAD {
      return ProtocolError;
    }
    r := ReadBody(buf, OpcodeOf(op), fin, masked, pos, len);
  }

  /** The key and the payload. */
  method ReadBody(buf: seq<byte>, op: Opcode, fin: bool, masked: bool, start: nat, len: nat) returns (r: ParseResult)
    requires start <= |buf|
    ensures r == ParseBody(buf, op, fin, masked, start, len)
  {
    var pos, key := start, [];
    if masked {
      if |buf| < pos + 4 {
        return NeedMore;
      }
      key := buf[pos..pos + 4];
      pos := pos + 4;
    }
    if |buf| < pos + len {
      return NeedMore;
    }
    assert key == buf[start..pos];
    var payload := Unmask(buf[pos..pos + len], key);
    r := Parsed(Frame(op, fin, masked, payload), pos + len);
  }

  method ReadLength(s: seq<byte>) returns (len: nat)
    ensures len == BigEndian(s)
  {
    len := 0;
    for k := 0 to |s|
      invariant len == BigEndian(s[..k])
    {
      assert s[..k + 1][..k] == s[..k];
      len := len * 256 + s[k];
    }
    assert s[..|s|] == s;
  }

  method Unmask(body: seq<byte>, key: seq<byte>) returns (r: seq<byte>)
    requires |key| == 4 || key == []
    ensures r == Masked(body, key)
  {
    var payload := new byte[|body|](_ => 0);
    for k := 0 to |body|
      invariant forall i :: 0 <= i < k ==> payload[i] == Masked(body, key)[i]
    {
      payload[k] := if key != [] then Xor(body[k], key[k % 4]) else body[k];
    }
    r := payload[..];
  }

  lemma TwoBytes(s: seq<byte>)
    requires |s| == 2
    ensures BigEndian(s) == s[0] as int * 256 + s[1]
  {
    assert s[..1] == [s[0]];
    assert [s[0]][..0] == [];
    assert BigEndian([s[0]]) == s[0];
  }

  // ---------- Encoding ----------

  function LengthBytes(n: nat, mask: bool): (s: seq<byte>) {
    var bit := if mask then 128 else 0;
    if n <= 125 then [bit + n]
    else if n <= 0xffff then [bit + 126] + BytesOf(n, 2)
    else [bit + 127] + BytesOf(n, 8)
  }

  /** The first four key bytes, a short key filled up with zeros. */
  function KeyBytes(mask: bool, key: seq<byte>): (s: seq<byte>)
    ensures |s| == if mask then 4 else 0
  {
    if mask then seq(4, k => if 0 <= k < |key| then key[k] else 0) else []
  }

  function EncodeFrame(op: Opcode, payload: seq<byte>, mask: bool, key: seq<byte>): seq<byte> {
    [128 + Code(op)] + LengthBytes(|payload|, mask) + KeyBytes(mask, key) + Masked(payload, KeyBytes(mask, key))
  }

  /** encodeFrame: appends byte by byte. */
  method EncodeFrameBytes(op: Opcode, payload: seq<byte>, mask: bool, maskKey: seq<byte>) returns (out: seq<byte>)
    ensures out == EncodeFrame(op, payload, mask, maskKey)
  {
    var length := EncodeLength(|payload|, mask);
    var key := EncodeKey(mask, maskKey);
    out := [128 + Code(op)] + length + key;
    ghost var head := out;
    for k := 0 to |payload|
      invariant out == head + Masked(payload, key)[..k]
    {
      var b := if mask then Xor(payload[k], key[k % 4]) else payload[k];
      assert b == Masked(payload, key)[k];
      out := out + [b];
    }
  }

  method EncodeLength(len: nat, mask: bool) returns (out: seq<byte>)
    ensures out == LengthBytes(len, mask)
  {
    var maskBit := if mask then 128 else 0;
    if len <= 125 {
      out := [maskBit + len];
    } else if len <= 0xffff {
      out := [maskBit + 126] + [len / 256 % 256] + [len % 256];
      assert BytesOf(len / 256, 1) == [] + [len / 256 % 256];
    } else {
      var tail: seq<byte> := [];
      var rest: nat := len;
      for k := 0 to 8
        invariant BytesOf(len, 8) == BytesOf(rest, 8 - k) + tail
      {
        tail := [rest % 256] + tail;
        rest := rest / 256;
      }
      out := [maskBit + 127] + tail;
    }
  }

  method EncodeKey(mask: bool, maskKey: seq<byte>) returns (key: seq<byte>)
    ensures key == KeyBytes(mask, maskKey)
  {
    key := [];
    if mask {
      for k := 0 to 4
        invariant key == KeyBytes(mask, maskKey)[..k]
      {
        key := key + [if k < |maskKey| then maskKey[k] else 0];
      }
    }
  }

  /** What parseFrame admits: control frames up to 125 bytes, data frames up to 1 MiB. */
  predicate Fits(op: Opcode, n: nat) {
    if Code(op) >= 8 then n <= 125 else n <= MAX_PAYLOAD
  }

  lemma LengthField(op: Opcode, n: nat, mask: bool, w: seq<byte>)
    requires n < Pow256(8) && [128 + Code(op)] + LengthBytes(n, mask) <= w
    ensures var len7 := w[1] % 128; var pos := 2 + ExtLength(len7);
      && 1 + |LengthBytes(n, mask)| == pos <= |w| && (w[1] >= 128 <==> mask) && (len7 > 125 <==> n > 125)
      && n == if pos == 2 then len7 else BigEndian(w[2..pos])
  {
    var l := LengthBytes(n, mask);
    assert w[1] == l[0];
    if n > 125 {
      Pow256Small();
      var k := if n <= 0xffff then 2 else 8;
      assert w[2..2 + k] == l[1..] == BytesOf(n, k);
      BytesOfValue(n, k);
    }
  }

  /**
   Parsing what was encoded, whatever follows it and however short or long the key: the frame
   comes back and exactly its bytes are consumed, or, when it exceeds the limits, it is refused.
   */
  lemma FrameRoundTrip(op: Opcode, payload: seq<byte>, mask: bool, key: seq<byte>, rest: seq<byte>)
    requires |payload| < Pow256(8)
    ensures var w := EncodeFrame(op, payload, mask, key);
      ParseFrame(w + rest) ==
      if Fits(op, |payload|) then Parsed(Frame(op, true, mask, payload), |w|) else ProtocolError
  {
    var w := EncodeFrame(op, payload, mask, key);
    var buf := w + rest;
    var k4 := KeyBytes(mask, key);
    var head := [128 + Code(op)] + LengthBytes(|payload|, mask);
    HeadRoundTrip(op, |payload|, mask, buf);
    Slices(head, k4, Masked(payload, k4), rest);
    BodyRoundTrip(buf, op, mask, |head|, k4, payload);
  }

  /** The first bytes say the opcode, the mask bit and the length. */
  lemma HeadRoundTrip(op: Opcode, n: nat, mask: bool, buf: seq<byte>)
    requires n < Pow256(8) && [128 + Code(op)] + LengthBytes(n, mask) <= buf
    ensures ParseFrame(buf) ==
      if Fits(op, n) then ParseBody(buf, op, true, mask, 1 + |LengthBytes(n, mask)|, n) else ProtocolError
  {
    LengthField(op, n, mask, buf);
    assert buf[0] == 128 + Code(op);
    FirstByte(op);
    HeadDecides(buf, op, mask, 1 + |LengthBytes(n, mask)|, n);
  }

  lemma FirstByte(op: Opcode)
    ensures (128 + Code(op)) % 16 == Code(op) && IsOpcode(Code(op)) && OpcodeOf(Code(op)) == op
  {
  }

  /** A final frame within the limits goes on to its body. */
  lemma HeadDecides(buf: seq<byte>, op: Opcode, mask: bool, pos: nat, n: nat)
    requires |buf| >= 2 && buf[0] >= 128 && buf[0] % 16 == Code(op) && OpcodeOf(Code(op)) == op
      && (buf[1] >= 128 <==> mask)
    requires pos == 2 + ExtLength(buf[1] % 128) <= |buf| && (buf[1] % 128 > 125 <==> n > 125)
    requires n == if pos == 2 then buf[1] % 128 else BigEndian(buf[2..pos])
    ensures ParseFrame(buf) == if Fits(op, n) then ParseBody(buf, op, true, mask, pos, n) else ProtocolError
  {
  }

  lemma Slices<T>(h: seq<T>, k: seq<T>, b: seq<T>, r: seq<T>)
    ensures var s, i, j := h + k + b + r, |h|, |h| + |k|; s[..i] == h && s[i..j] == k && s[j..j + |b|] == b
  {
  }

  lemma BodyRoundTrip(buf: seq<byte>, op: Opcode, mask: bool, pos: nat, k4: seq<byte>, payload: seq<byte>)
    requires |k4| == if mask then 4 else 0
    requires var start := pos + |k4|;
      start + |payload| <= |buf| && buf[pos..start] == k4 && buf[start..start + |payload|] == Masked(payload, k4)
    ensures ParseBody(buf, op, true, mask, pos, |payload|)
         == Parsed(Frame(op, true, mask, payload), pos + |k4| + |payload|)
  {
    MaskedTwice(payload, k4);
  }

  // ---------- Incremental parsing ----------

  /** More bytes do not change a verdict. */
  lemma VerdictStands(buf: seq<byte>, more: seq<byte>)
    requires !ParseFrame(buf).NeedMore?
    ensures ParseFrame(buf + more) == ParseFrame(buf)
  {
    var pos := 2 + ExtLength(buf[1] % 128);
    if pos <= |buf| {
      SliceStands(buf, more, 2, pos);
      var start := pos + if buf[1] >= 128 then 4 else 0;
      var len := if pos == 2 then buf[1] % 128 else BigEndian(buf[2..pos]);
      if start + len <= |buf| {
        SliceStands(buf, more, pos, start);
        SliceStands(buf, more, start, start + len);
      }
    }
  }

  lemma SliceStands<T>(s: seq<T>, more: seq<T>, i: nat, j: nat)
    requires i <= j <= |s|
    ensures (s + more)[i..j] == s[i..j]
  {
  }

  /** A frame is reported from its own bytes alone. */
  lemma FrameAlone(buf: seq<byte>)
    requires ParseFrame(buf).Parsed? && ParseFrame(buf).consumed <= |buf|
    ensures ParseFrame(buf[..ParseFrame(buf).consumed]) == ParseFrame(buf)
  {
    var n := ParseFrame(buf).consumed;
    var own := buf[..n];
    assert own + buf[n..] == buf;
    var pos := 2 + ExtLength(buf[1] % 128);
    assert own[2..pos] == buf[2..pos];
    assert !ParseFrame(own).NeedMore?;
    VerdictStands(own, buf[n..]);
  }

  lemma ConsumedWithin(buf: seq<byte>)
    ensures ParseFrame(buf).Parsed? ==> 2 <= ParseFrame(buf).consumed <= |buf|
  {
  }

  /** A frame is not reported before its last byte. */
  lemma PrefixNeedsMore(op: Opcode, payload: seq<byte>, mask: bool, key: seq<byte>, k: nat)
    requires Fits(op, |payload|) && k < |EncodeFrame(op, payload, mask, key)|
    ensures ParseFrame(EncodeFrame(op, payload, mask, key)[..k]) == NeedMore
  {
    var w := EncodeFrame(op, payload, mask, key);
    Pow256Small();
    FrameRoundTrip(op, payload, mask, key, []);
    assert w + [] == w;
    NotBeforeItsEnd(w, k);
  }

  lemma NotBeforeItsEnd(w: seq<byte>, k: nat)
    requires ParseFrame(w).Parsed? && ParseFrame(w).consumed == |w| && k < |w|
    ensures ParseFrame(w[..k]) == NeedMore
  {
    assert w == w[..k] + w[k..];
    ConsumedWithin(w[..k]);
    if !ParseFrame(w[..k]).NeedMore? {
      VerdictStands(w[..k], w[k..]);
    }
  }

  /** What an incomplete frame can make the reader hold. */
  lemma IncompleteIsBounded(buf: seq<byte>)
    requires ParseFrame(buf).NeedMore?
    ensures |buf| < MAX_PAYLOAD + 14
  {
  }
}
