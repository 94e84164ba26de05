/** What frames are on the wire, bit by bit, and the example frames of section 5.7 of RFC 6455. */
module FrameSamples {
  import opened Bits
  import opened WsFrame
  import opened WordVectors

  // ---------- Single bits ----------

  lemma XorByteBit(a: byte, b: byte, i: nat)
    requires i < 8
    ensures Bit(Xor(a, b), i) == 1 <==> Bit(a, i) != Bit(b, i)
  {
    XorBit(a, b, 8, i);
  }

  /** `x` and `y` differ exactly in the bits of `key`. */
  ghost predicate DifferIn(x: byte, y: byte, key: byte) {
    forall i :: 0 <= i < 8 ==> (Bit(key, i) == 1 <==> Bit(x, i) != Bit(y, i))
  }

  lemma MaskDiffers(x: byte, key: byte)
    ensures DifferIn(x, Xor(x, key), key)
  {
    forall i | 0 <= i < 8 ensures Bit(key, i) == 1 <==> Bit(x, i) != Bit(Xor(x, key), i) {
      XorByteBit(x, key, i);
    }
  }

  /** The whole length field has arrived. */
  predicate HasLength(buf: seq<byte>) {
    |buf| >= 2 && (buf[1] % 128 == 126 ==> |buf| >= 4) && (buf[1] % 128 == 127 ==> |buf| >= 10)
  }

  /** The length that it declares, most significant byte first. */
  function Declared(buf: seq<byte>): nat
    requires HasLength(buf)
  {
    if buf[1] % 128 < 126 then buf[1] % 128
    else if buf[1] % 128 == 126 then buf[2] as int * 0x100 + buf[3]
    else
      buf[2] as int * 0x100_0000_0000_0000 + buf[3] as int * 0x1_0000_0000_0000 + buf[4] as int * 0x100_0000_0000
        + buf[5] as int * 0x1_0000_0000 + buf[6] as int * 0x100_0000 + buf[7] as int * 0x1_0000
        + buf[8] as int * 0x100 + buf[9]
  }

  lemma {:induction false} BigEndianSnoc(s: seq<byte>, k: nat)
    requires k < |s|
    ensures BigEndian(s[..k + 1]) == 256 * BigEndian(s[..k]) + s[k]
  {
    assert s[..k + 1][..k] == s[..k];
  }

  lemma EightBytes(s: seq<byte>)
    requires |s| == 8
    ensures BigEndian(s) == s[0] as int * 0x100_0000_0000_0000 + s[1] as int * 0x1_0000_0000_0000
      + s[2] as int * 0x100_0000_0000 + s[3] as int * 0x1_0000_0000 + s[4] as int * 0x100_0000
      + s[5] as int * 0x1_0000 + s[6] as int * 0x100 + s[7]
  {
    assert s[..0] == [];
    BigEndianSnoc(s, 0);
    BigEndianSnoc(s, 1);
    BigEndianSnoc(s, 2);
    BigEndianSnoc(s, 3);
    BigEndianSnoc(s, 4);
    BigEndianSnoc(s, 5);
    BigEndianSnoc(s, 6);
    BigEndianSnoc(s, 7);
    assert s[..8] == s;
  }

  lemma LengthRead(buf: seq<byte>)
    requires HasLength(buf)
    ensures var pos := 2 + ExtLength(buf[1] as int % 128);
      pos <= |buf| && Declared(buf) == if pos == 2 then buf[1] % 128 else BigEndian(buf[2..pos])
  {
    if buf[1] % 128 == 126 {
      TwoBytes(buf[2..4]);
    } else if buf[1] % 128 == 127 {
      EightBytes(buf[2..10]);
    }
  }

  /**
   Every parsed frame, whatever bytes it came from: its flags and opcode are in the first two
   bytes and its length in the length field.
   */
  lemma FrameFields(buf: seq<byte>)
    requires ParseFrame(buf).Parsed?
    ensures HasLength(buf)
    ensures var f, n := ParseFrame(buf).frame, ParseFrame(buf).consumed;
      && Code(f.opcode) == buf[0] % 16 && (f.fin <==> buf[0] >= 128) && (f.masked <==> buf[1] >= 128)
      && |f.payload| == Declared(buf) && n <= |buf|
      && n == 2 + (if buf[1] % 128 == 126 then 2 else if buf[1] % 128 == 127 then 8 else 0)
              + (if f.masked then 4 else 0) + |f.payload|
  {
    LengthRead(buf);
  }

  predicate BadOpcode(buf: seq<byte>)
    requires |buf| >= 2
  {
    3 <= buf[0] % 16 <= 7 || buf[0] % 16 >= 11
  }

  predicate BadControl(buf: seq<byte>)
    requires |buf| >= 2
  {
    buf[0] % 16 >= 8 && (buf[0] < 128 || buf[1] % 128 >= 126)
  }

  predicate TooLong(buf: seq<byte>) { HasLength(buf) && Declared(buf) > 0x10_0000 }

  /** What is refused: the ten reserved opcodes, a fragmented or long control frame, more than a mebibyte. */
  lemma RefusedIff(buf: seq<byte>)
    ensures ParseFrame(buf).ProtocolError? <==> |buf| >= 2 && (BadOpcode(buf) || BadControl(buf) || TooLong(buf))
  {
    if HasLength(buf) {
      LengthRead(buf);
    }
  }

  /** Each payload byte is the wire byte, changed exactly in the bits of the key byte in turn when there is a key. */
  lemma PayloadUnmasked(buf: seq<byte>, k: nat)
    requires ParseFrame(buf).Parsed? && k < |ParseFrame(buf).frame.payload|
    ensures var f, start := ParseFrame(buf).frame, ParseFrame(buf).consumed - |ParseFrame(buf).frame.payload|;
      && 2 + (if f.masked then 4 else 0) <= start && start + k < |buf|
      && if f.masked then DifferIn(buf[start + k], f.payload[k], buf[start - 4 + k % 4])
         else f.payload[k] == buf[start + k]
  {
    var f, start := ParseFrame(buf).frame, ParseFrame(buf).consumed - |ParseFrame(buf).frame.payload|;
    if f.masked {
      MaskDiffers(buf[start + k], buf[start - 4 + k % 4]);
    }
  }

  /** The opcode stands in front of an encoded frame and the key, filled up with zeros, in front of its body. */
  lemma EncodedWire(op: Opcode, payload: seq<byte>, mask: bool, key: seq<byte>, j: nat)
    requires j < 4
    ensures var w := EncodeFrame(op, payload, mask, key);
      && w[0] == 128 + Code(op) && |w| >= 2 + (if mask then 4 else 0) + |payload|
      && (mask ==> w[|w| - |payload| - 4 + j] == if j < |key| then key[j] else 0)
  {
  }

  // ---------- The frames of section 5.7 ----------

  /** Exclusive or as the machine's. */
  lemma XorIs(a: byte, b: byte, c: byte)
    requires XorV(ByteV(a), ByteV(b)) == ByteV(c)
    ensures Xor(a, b) == c
  {
    assert Pow2(8) == 256 by { assert Pow2(4) == 16 && Pow2(6) == 64; }
    BvXor(a, b, 8);
    BvByte(a);
    BvByte(b);
    BvByte(c);
    BvInjective(Xor(a, b), c);
  }

  const HELLO: seq<byte> := [0x48, 0x65, 0x6c, 0x6c, 0x6f]

  /** The frame in the first `head` bytes and the payload behind them. */
  lemma Unmasked(buf: seq<byte>, op: Opcode, head: nat)
    requires HasLength(buf) && buf[0] % 16 == Code(op) && buf[1] < 128 && head + Declared(buf) == |buf|
    requires head == 2 + (if buf[1] == 126 then 2 else if buf[1] == 127 then 8 else 0)
    requires Declared(buf) <= 0x10_0000 && (Code(op) >= 8 ==> buf[0] >= 128 && buf[1] < 126)
    ensures ParseFrame(buf) == Parsed(Frame(op, buf[0] >= 128, false, buf[head..]), |buf|)
  {
    LengthRead(buf);
    FirstByte(op);
    assert buf[head..head + Declared(buf)] == buf[head..];
    assert buf[head..head] == [];
  }

  lemma SingleText()
    ensures ParseFrame([0x81, 0x05] + HELLO) == Parsed(Frame(Text, true, false, HELLO), 7)
    ensures EncodeFrame(Text, HELLO, false, []) == [0x81, 0x05] + HELLO
  {
    var w := [0x81, 0x05] + HELLO;
    Unmasked(w, Text, 2);
    assert w[2..] == HELLO;
  }

  lemma FragmentedText()
    ensures ParseFrame([0x01, 0x03] + HELLO[..3]) == Parsed(Frame(Text, false, false, HELLO[..3]), 5)
    ensures ParseFrame([0x80, 0x02] + HELLO[3..]) == Parsed(Frame(Continuation, true, false, HELLO[3..]), 4)
  {
    var v, w := [0x01, 0x03] + HELLO[..3], [0x80, 0x02] + HELLO[3..];
    Unmasked(v, Text, 2);
    assert v[2..] == HELLO[..3];
    Unmasked(w, Continuation, 2);
    assert w[2..] == HELLO[3..];
  }

  lemma UnmaskedPing()
    ensures ParseFrame([0x89, 0x05] + HELLO) == Parsed(Frame(Ping, true, false, HELLO), 7)
    ensures EncodeFrame(Ping, HELLO, false, []) == [0x89, 0x05] + HELLO
  {
    var w := [0x89, 0x05] + HELLO;
    Unmasked(w, Ping, 2);
    assert w[2..] == HELLO;
  }

  const MASK: seq<byte> := [0x37, 0xfa, 0x21, 0x3d]
  const MASKED: seq<byte> := [0x7f, 0x9f, 0x4d, 0x51, 0x58]

  lemma HelloBytes()
    ensures Xor(0x48, 0x37) == 0x7f && Xor(0x65, 0xfa) == 0x9f && Xor(0x6c, 0x21) == 0x4d && Xor(0x6c, 0x3d) == 0x51
    ensures Xor(0x6f, 0x37) == 0x58
  {
    XorIs(0x48, 0x37, 0x7f);
    XorIs(0x65, 0xfa, 0x9f);
    XorIs(0x6c, 0x21, 0x4d);
    XorIs(0x6c, 0x3d, 0x51);
    XorIs(0x6f, 0x37, 0x58);
  }

  lemma HelloMasked()
    ensures Masked(HELLO, MASK) == MASKED
  {
    HelloBytes();
    ByteByByte(Xor);
  }

  lemma ByteByByte(f: (byte, byte) -> byte)
    requires f(0x48, 0x37) == 0x7f && f(0x65, 0xfa) == 0x9f && f(0x6c, 0x21) == 0x4d && f(0x6c, 0x3d) == 0x51
    requires f(0x6f, 0x37) == 0x58
    ensures forall k :: 0 <= k < 5 ==> f(HELLO[k], MASK[k % 4]) == MASKED[k]
  {
    forall k | 0 <= k < 5 ensures f(HELLO[k], MASK[k % 4]) == MASKED[k] {
      assert k == 0 || k == 1 || k == 2 || k == 3 || k == 4;
    }
  }

  /** The client's "Hello" and its answer to the ping. */
  lemma MaskedHello(op: Opcode)
    requires op == Text || op == Pong
    ensures var w := [if op == Text then 0x81 else 0x8a, 0x85] + MASK + MASKED;
      EncodeFrame(op, HELLO, true, MASK) == w && ParseFrame(w) == Parsed(Frame(op, true, true, HELLO), 11)
  {
    HelloMasked();
    ShortMasked(op, HELLO, MASK, MASKED, [if op == Text then 0x81 else 0x8a, 0x85] + MASK + MASKED);
  }

  /** A short frame under a key of four bytes. */
  lemma ShortMasked(op: Opcode, s: seq<byte>, key: seq<byte>, body: seq<byte>, w: seq<byte>)
    requires |s| <= 125 && |key| == 4 && body == Masked(s, key) && w == [128 + Code(op), 128 + |s|] + key + body
    ensures EncodeFrame(op, s, true, key) == w && ParseFrame(w) == Parsed(Frame(op, true, true, s), |w|)
  {
    assert KeyBytes(true, key) == key;
    assert [128 + Code(op)] + [128 + |s|] == [128 + Code(op), 128 + |s|];
    Pow256Small();
    FrameRoundTrip(op, s, true, key, []);
    assert w + [] == w;
  }

  lemma Binary256(p: seq<byte>)
    requires |p| == 256
    ensures ParseFrame([0x82, 0x7e, 0x01, 0x00] + p) == Parsed(Frame(Binary, true, false, p), 260)
  {
    var w := [0x82, 0x7e, 0x01, 0x00] + p;
    Unmasked(w, Binary, 4);
    assert w[4..] == p;
  }

  lemma Binary64K(p: seq<byte>)
    requires |p| == 65536
    ensures ParseFrame([0x82, 0x7f, 0, 0, 0, 0, 0, 1, 0, 0] + p) == Parsed(Frame(Binary, true, false, p), 65546)
  {
    var w := [0x82, 0x7f, 0, 0, 0, 0, 0, 1, 0, 0] + p;
    Unmasked(w, Binary, 10);
    assert w[10..] == p;
  }
}
