/** The sample handshake of section 1.3 of RFC 6455, from the client's key to the text of the accept key. */
module AcceptSample {
  import opened WsFrame
  import opened Sha1Hash
  import opened Base64Text
  import opened Handshake
  import opened WordVectors
  import opened Sha1Trace
  import One = SampleBlockOne
  import Two = SampleBlockTwo

  /** The bytes of a text. */
  predicate Ascii(s: string, b: seq<byte>) { |s| == |b| && forall i :: 0 <= i < |s| ==> b[i] == s[i] as int }

  lemma GuidText()
    ensures Ascii("258EAFA5-E914-47DA-95CA-C5AB0DC85B11", GUID)
  {
  }

  const KEY: seq<byte> := [
    0x64, 0x47, 0x68, 0x6c, 0x49, 0x48, 0x4e, 0x68, 0x62, 0x58, 0x42, 0x73,
    0x5a, 0x53, 0x42, 0x75, 0x62, 0x32, 0x35, 0x6a, 0x5a, 0x51, 0x3d, 0x3d]

  lemma KeyText()
    ensures Ascii("dGhlIHNhbXBsZSBub25jZQ==", KEY)
  {
  }

  // ---------- The two blocks ----------

  /** The words of sixteen bytes inside a block. */
  lemma Sixteen<V>(f: (byte, byte, byte, byte) -> V, w: nat -> V, block: seq<byte>, g: nat,
      b0: byte, b1: byte, b2: byte, b3: byte, b4: byte, b5: byte, b6: byte, b7: byte,
      b8: byte, b9: byte, b10: byte, b11: byte, b12: byte, b13: byte, b14: byte, b15: byte, t: nat)
    requires |block| == 64 && g <= 12 && g <= t < g + 4
    requires block[4 * g..4 * g + 16] == [b0, b1, b2, b3, b4, b5, b6, b7, b8, b9, b10, b11, b12, b13, b14, b15]
    requires f(b0, b1, b2, b3) == w(g) && f(b4, b5, b6, b7) == w(g + 1)
    requires f(b8, b9, b10, b11) == w(g + 2) && f(b12, b13, b14, b15) == w(g + 3)
    ensures f(block[4 * t], block[4 * t + 1], block[4 * t + 2], block[4 * t + 3]) == w(t)
  {
    var b := block[4 * g..4 * g + 16];
    assert b[0] == b0 && b[1] == b1 && b[2] == b2 && b[3] == b3 && b[4] == b4 && b[5] == b5 && b[6] == b6 && b[7] == b7;
    assert b[8] == b8 && b[9] == b9 && b[10] == b10 && b[11] == b11;
    assert b[12] == b12 && b[13] == b13 && b[14] == b14 && b[15] == b15;
    FourWords(f, w, block, g, b, t);
  }

  lemma FourWords<V>(f: (byte, byte, byte, byte) -> V, w: nat -> V, block: seq<byte>, g: nat, b: seq<byte>, t: nat)
    requires |block| == 64 && g <= 12 && |b| == 16 && block[4 * g..4 * g + 16] == b && g <= t < g + 4
    requires f(b[0], b[1], b[2], b[3]) == w(g) && f(b[4], b[5], b[6], b[7]) == w(g + 1)
    requires f(b[8], b[9], b[10], b[11]) == w(g + 2) && f(b[12], b[13], b[14], b[15]) == w(g + 3)
    ensures f(block[4 * t], block[4 * t + 1], block[4 * t + 2], block[4 * t + 3]) == w(t)
  {
    var k := 4 * (t - g);
    assert block[4 * t] == b[k] && block[4 * t + 1] == b[k + 1] && block[4 * t + 2] == b[k + 2];
    assert block[4 * t + 3] == b[k + 3];
  }

  function Spelled(b0: byte, b1: byte, b2: byte, b3: byte): bv32 { WordV(b0, b1, b2, b3) }

  predicate Spells(block: seq<byte>, t: nat, v: bv32) {
    4 * t + 4 <= |block| && Spelled(block[4 * t], block[4 * t + 1], block[4 * t + 2], block[4 * t + 3]) == v
  }

  lemma SpelledWord(block: seq<byte>, t: nat, v: bv32)
    requires Spells(block, t, v)
    ensures Bv(WordAt(block, t)) == v
  {
    BvWord(block[4 * t], block[4 * t + 1], block[4 * t + 2], block[4 * t + 3], WordAt(block, t));
  }

  lemma FirstWords0(block: seq<byte>, t: nat)
    requires |block| == 64 && 0 <= t < 4
    requires block[0..16] == [0x64, 0x47, 0x68, 0x6c, 0x49, 0x48, 0x4e, 0x68, 0x62, 0x58, 0x42, 0x73, 0x5a, 0x53,
      0x42, 0x75]
    ensures Spells(block, t, One.W(t))
  {
    FirstSpelling0();
    Sixteen(Spelled, One.W, block, 0, 0x64, 0x47, 0x68, 0x6c, 0x49, 0x48, 0x4e, 0x68, 0x62, 0x58, 0x42, 0x73, 0x5a,
      0x53, 0x42, 0x75, t);
  }

  lemma FirstSpelling0()
    ensures Spelled(0x64, 0x47, 0x68, 0x6c) == One.W(0)
    ensures Spelled(0x49, 0x48, 0x4e, 0x68) == One.W(1)
    ensures Spelled(0x62, 0x58, 0x42, 0x73) == One.W(2)
    ensures Spelled(0x5a, 0x53, 0x42, 0x75) == One.W(3)
  {
  }

  lemma FirstWords4(block: seq<byte>, t: nat)
    requires |block| == 64 && 4 <= t < 8
    requires block[16..32] == [0x62, 0x32, 0x35, 0x6a, 0x5a, 0x51, 0x3d, 0x3d, 0x32, 0x35, 0x38, 0x45, 0x41, 0x46,
      0x41, 0x35]
    ensures Spells(block, t, One.W(t))
  {
    FirstSpelling4();
    Sixteen(Spelled, One.W, block, 4, 0x62, 0x32, 0x35, 0x6a, 0x5a, 0x51, 0x3d, 0x3d, 0x32, 0x35, 0x38, 0x45, 0x41,
      0x46, 0x41, 0x35, t);
  }

  lemma FirstSpelling4()
    ensures Spelled(0x62, 0x32, 0x35, 0x6a) == One.W(4)
    ensures Spelled(0x5a, 0x51, 0x3d, 0x3d) == One.W(5)
    ensures Spelled(0x32, 0x35, 0x38, 0x45) == One.W(6)
    ensures Spelled(0x41, 0x46, 0x41, 0x35) == One.W(7)
  {
  }

  lemma FirstWords8(block: seq<byte>, t: nat)
    requires |block| == 64 && 8 <= t < 12
    requires block[32..48] == [0x2d, 0x45, 0x39, 0x31, 0x34, 0x2d, 0x34, 0x37, 0x44, 0x41, 0x2d, 0x39, 0x35, 0x43,
      0x41, 0x2d]
    ensures Spells(block, t, One.W(t))
  {
    FirstSpelling8();
    Sixteen(Spelled, One.W, block, 8, 0x2d, 0x45, 0x39, 0x31, 0x34, 0x2d, 0x34, 0x37, 0x44, 0x41, 0x2d, 0x39, 0x35,
      0x43, 0x41, 0x2d, t);
  }

  lemma FirstSpelling8()
    ensures Spelled(0x2d, 0x45, 0x39, 0x31) == One.W(8)
    ensures Spelled(0x34, 0x2d, 0x34, 0x37) == One.W(9)
    ensures Spelled(0x44, 0x41, 0x2d, 0x39) == One.W(10)
    ensures Spelled(0x35, 0x43, 0x41, 0x2d) == One.W(11)
  {
  }

  lemma FirstWords12(block: seq<byte>, t: nat)
    requires |block| == 64 && 12 <= t < 16
    requires block[48..64] == [0x43, 0x35, 0x41, 0x42, 0x30, 0x44, 0x43, 0x38, 0x35, 0x42, 0x31, 0x31, 0x80, 0x00,
      0x00, 0x00]
    ensures Spells(block, t, One.W(t))
  {
    FirstSpelling12();
    Sixteen(Spelled, One.W, block, 12, 0x43, 0x35, 0x41, 0x42, 0x30, 0x44, 0x43, 0x38, 0x35, 0x42, 0x31, 0x31,
      0x80, 0x00, 0x00, 0x00, t);
  }

  lemma FirstSpelling12()
    ensures Spelled(0x43, 0x35, 0x41, 0x42) == One.W(12)
    ensures Spelled(0x30, 0x44, 0x43, 0x38) == One.W(13)
    ensures Spelled(0x35, 0x42, 0x31, 0x31) == One.W(14)
    ensures Spelled(0x80, 0x00, 0x00, 0x00) == One.W(15)
  {
  }

  /** The block that holds the key, the GUID and the one bit of the padding. */
  ghost predicate IsFirst(block: seq<byte>) {
    |block| == 64
    && block[0..16] == [0x64, 0x47, 0x68, 0x6c, 0x49, 0x48, 0x4e, 0x68, 0x62, 0x58, 0x42, 0x73, 0x5a, 0x53, 0x42, 0x75]
    && block[16..32] == [0x62, 0x32, 0x35, 0x6a, 0x5a, 0x51, 0x3d, 0x3d, 0x32, 0x35, 0x38, 0x45, 0x41, 0x46, 0x41, 0x35]
    && block[32..48] == [0x2d, 0x45, 0x39, 0x31, 0x34, 0x2d, 0x34, 0x37, 0x44, 0x41, 0x2d, 0x39, 0x35, 0x43, 0x41, 0x2d]
    && block[48..64] == [0x43, 0x35, 0x41, 0x42, 0x30, 0x44, 0x43, 0x38, 0x35, 0x42, 0x31, 0x31, 0x80, 0x00, 0x00, 0x00]
  }

  lemma FirstWord(block: seq<byte>, t: nat)
    requires IsFirst(block) && t < 16
    ensures Bv(WordAt(block, t)) == One.W(t)
  {
    if t < 4 {
      FirstWords0(block, t);
    } else if t < 8 {
      FirstWords4(block, t);
    } else if t < 12 {
      FirstWords8(block, t);
    } else {
      FirstWords12(block, t);
    }
    SpelledWord(block, t, One.W(t));
  }

  /** The block of zeros that ends in the length, 480 bits. */
  ghost predicate IsSecond(block: seq<byte>) {
    |block| == 64 && (forall i :: 0 <= i < 62 ==> block[i] == 0) && block[62] == 1 && block[63] == 0xe0
  }

  lemma SecondSpelling()
    ensures Spelled(0, 0, 0, 0) == 0 && Spelled(0, 0, 1, 0xe0) == 0x1e0
  {
  }

  lemma SecondWord(block: seq<byte>, t: nat)
    requires IsSecond(block) && t < 16
    ensures Bv(WordAt(block, t)) == Two.W(t)
  {
    SecondSpelling();
    var v := if t < 15 then 0 else 0x1e0;
    assert Spells(block, t, v);
    SpelledWord(block, t, v);
    SecondTable(t);
  }

  lemma SecondTable(t: nat)
    requires t < 16
    ensures Two.W(t) == if t < 15 then 0 else 0x1e0
  {
  }

  lemma {:induction false} BytesOfZero(k: nat)
    ensures BytesOf(0, k) == Zeros(k)
  {
    if k > 0 {
      BytesOfZero(k - 1);
    }
  }

  lemma LengthIs()
    ensures BytesOf(480, 8) == [0, 0, 0, 0, 0, 0, 1, 0xe0]
  {
    BytesOfZero(6);
    assert BytesOf(1, 7) == BytesOf(0, 6) + [1];
    assert BytesOf(480, 8) == BytesOf(1, 7) + [0xe0];
  }

  lemma TrailerIs(t: seq<byte>)
    requires t == Trailer(60)
    ensures |t| == 68 && t[0] == 0x80 && (forall i :: 1 <= i < 66 ==> t[i] == 0) && t[66] == 1 && t[67] == 0xe0
  {
    LengthIs();
    assert |t| == 68;
    forall i | 60 <= i < 68 ensures t[i] == BytesOf(480, 8)[i - 60] {
      assert t[i] == t[60..][i - 60];
    }
  }

  lemma BlocksAre(m: seq<byte>, p: seq<byte>)
    requires m == KEY + GUID && p == Padded(m)
    ensures |p| == 128 && IsFirst(p[..64]) && IsSecond(p[64..])
  {
    var t := Trailer(60);
    TrailerIs(t);
    assert p == m + t;
    FirstIs(m, t, p[..64]);
  }

  lemma FirstIs(m: seq<byte>, t: seq<byte>, block: seq<byte>)
    requires m == KEY + GUID && |t| == 68 && t[0] == 0x80 && (forall i :: 1 <= i < 66 ==> t[i] == 0)
    requires block == (m + t)[..64]
    ensures IsFirst(block)
  {
    KeyParts();
    GuidParts();
    GuidMiddle();
    assert t[..4] == [0x80, 0, 0, 0];
    assert block[0..16] == KEY[..16];
    assert block[16..32] == KEY[16..] + GUID[..8];
    assert block[32..48] == GUID[8..24];
    assert block[48..64] == GUID[24..] + t[..4];
  }

  lemma KeyParts()
    ensures KEY[..16] == [0x64, 0x47, 0x68, 0x6c, 0x49, 0x48, 0x4e, 0x68, 0x62, 0x58, 0x42, 0x73, 0x5a, 0x53, 0x42,
      0x75]
    ensures KEY[16..] == [0x62, 0x32, 0x35, 0x6a, 0x5a, 0x51, 0x3d, 0x3d]
  {
  }

  lemma GuidParts()
    ensures GUID[..8] == [0x32, 0x35, 0x38, 0x45, 0x41, 0x46, 0x41, 0x35]
    ensures GUID[24..] == [0x43, 0x35, 0x41, 0x42, 0x30, 0x44, 0x43, 0x38, 0x35, 0x42, 0x31, 0x31]
  {
  }

  lemma GuidMiddle()
    ensures GUID[8..24] == [0x2d, 0x45, 0x39, 0x31, 0x34, 0x2d, 0x34, 0x37, 0x44, 0x41, 0x2d, 0x39, 0x35, 0x43,
      0x41, 0x2d]
  {
    var g := GUID[8..24];
    assert |g| == 16 && forall i :: 0 <= i < 16 ==> g[i] == GUID[8 + i];
  }

  // ---------- The registers ----------

  lemma InitialTable()
    ensures WordV(0x67, 0x45, 0x23, 0x01) == One.A(4)
    ensures WordV(0xef, 0xcd, 0xab, 0x89) == One.A(3)
    ensures WordV(0x98, 0xba, 0xdc, 0xfe) == Rot30(One.A(2))
    ensures WordV(0x10, 0x32, 0x54, 0x76) == Rot30(One.A(1))
    ensures WordV(0xc3, 0xd2, 0xe1, 0xf0) == Rot30(One.A(0))
  {
  }

  lemma Initial(h: Regs)
    requires h == H0
    ensures RegsAre(h, One.A(4), One.A(3), One.A(2), One.A(1), One.A(0))
  {
    InitialTable();
    BvWord(0x67, 0x45, 0x23, 0x01, h.a);
    BvWord(0xef, 0xcd, 0xab, 0x89, h.b);
    BvWord(0x98, 0xba, 0xdc, 0xfe, h.c);
    BvWord(0x10, 0x32, 0x54, 0x76, h.d);
    BvWord(0xc3, 0xd2, 0xe1, 0xf0, h.e);
  }

  lemma AfterFirst(block: seq<byte>, h: Regs, c: Regs)
    requires IsFirst(block) && h == H0 && c == Compress(h, block)
    ensures RegsAre(c, Two.A(4), Two.A(3), Two.A(2), Two.A(1), Two.A(0))
  {
    Initial(h);
    forall u | 0 <= u < 16 ensures Bv(WordAt(block, u)) == One.W(u) {
      FirstWord(block, u);
    }
    forall u | 16 <= u < 80 ensures Recurs(One.W, NextWord, u) {
      One.Words(u);
    }
    forall u | 0 <= u < 80 ensures Advances(One.A, NextWith(One.W), u) {
      One.Steps(u);
    }
    CompressIs(h, block, One.W, One.A);
    MiddleTable();
  }

  lemma MiddleTable()
    ensures AddV(One.A(4), One.A(84)) == Two.A(4) && AddV(One.A(3), One.A(83)) == Two.A(3)
    ensures AddV(Rot30(One.A(2)), Rot30(One.A(82))) == Rot30(Two.A(2))
    ensures AddV(Rot30(One.A(1)), Rot30(One.A(81))) == Rot30(Two.A(1))
    ensures AddV(Rot30(One.A(0)), Rot30(One.A(80))) == Rot30(Two.A(0))
  {
  }

  lemma AfterSecond(block: seq<byte>, h: Regs, c: Regs)
    requires IsSecond(block) && RegsAre(h, Two.A(4), Two.A(3), Two.A(2), Two.A(1), Two.A(0)) && c == Compress(h, block)
    ensures c == Regs(0xb37a4f2c, 0xc0624f16, 0x90f64606, 0xcf385945, 0xb2bec4ea)
  {
    forall u | 0 <= u < 16 ensures Bv(WordAt(block, u)) == Two.W(u) {
      SecondWord(block, u);
    }
    forall u | 16 <= u < 80 ensures Recurs(Two.W, NextWord, u) {
      Two.Words(u);
    }
    forall u | 0 <= u < 80 ensures Advances(Two.A, NextWith(Two.W), u) {
      Two.Steps(u);
    }
    CompressIs(h, block, Two.W, Two.A);
    FinalWords(c);
  }

  lemma FinalWords(c: Regs)
    requires Bv(c.a) == AddV(Two.A(4), Two.A(84)) && Bv(c.b) == AddV(Two.A(3), Two.A(83))
    requires Bv(c.c) == AddV(Rot30(Two.A(2)), Rot30(Two.A(82))) && Bv(c.d) == AddV(Rot30(Two.A(1)), Rot30(Two.A(81)))
    requires Bv(c.e) == AddV(Rot30(Two.A(0)), Rot30(Two.A(80)))
    ensures c == Regs(0xb37a4f2c, 0xc0624f16, 0x90f64606, 0xcf385945, 0xb2bec4ea)
  {
    FinalTable();
    WordIs(c.a, 0xb3, 0x7a, 0x4f, 0x2c, 0xb37a4f2c);
    WordIs(c.b, 0xc0, 0x62, 0x4f, 0x16, 0xc0624f16);
    WordIs(c.c, 0x90, 0xf6, 0x46, 0x06, 0x90f64606);
    WordIs(c.d, 0xcf, 0x38, 0x59, 0x45, 0xcf385945);
    WordIs(c.e, 0xb2, 0xbe, 0xc4, 0xea, 0xb2bec4ea);
  }

  lemma WordIs(x: word, b0: byte, b1: byte, b2: byte, b3: byte, y: word)
    requires Bv(x) == WordV(b0, b1, b2, b3)
    requires y == b0 as int * 0x100_0000 + b1 as int * 0x1_0000 + b2 as int * 0x100 + b3
    ensures x == y
  {
    BvWord(b0, b1, b2, b3, y);
    BvInjective(x, y);
  }

  lemma FinalTable()
    ensures AddV(Two.A(4), Two.A(84)) == WordV(0xb3, 0x7a, 0x4f, 0x2c)
    ensures AddV(Two.A(3), Two.A(83)) == WordV(0xc0, 0x62, 0x4f, 0x16)
    ensures AddV(Rot30(Two.A(2)), Rot30(Two.A(82))) == WordV(0x90, 0xf6, 0x46, 0x06)
    ensures AddV(Rot30(Two.A(1)), Rot30(Two.A(81))) == WordV(0xcf, 0x38, 0x59, 0x45)
    ensures AddV(Rot30(Two.A(0)), Rot30(Two.A(80))) == WordV(0xb2, 0xbe, 0xc4, 0xea)
  {
  }

  // ---------- The digest and its text ----------

  lemma WordBytes(b0: byte, b1: byte, b2: byte, b3: byte, n: nat)
    requires n == b0 as int * 0x100_0000 + b1 as int * 0x1_0000 + b2 as int * 0x100 + b3
    ensures BytesOf(n, 4) == [b0, b1, b2, b3]
  {
    var n2 := b0 as int * 0x100 + b1;
    var n3 := n2 * 0x100 + b2;
    assert BytesOf(b0, 1) == BytesOf(0, 0) + [b0];
    assert n2 / 256 == b0 && n2 % 256 == b1;
    assert BytesOf(n2, 2) == BytesOf(b0, 1) + [b1];
    assert n3 / 256 == n2 && n3 % 256 == b2;
    assert BytesOf(n3, 3) == BytesOf(n2, 2) + [b2];
    assert n / 256 == n3 && n % 256 == b3;
  }

  const DIGEST: seq<byte> := [
    0xb3, 0x7a, 0x4f, 0x2c, 0xc0, 0x62, 0x4f, 0x16, 0x90, 0xf6,
    0x46, 0x06, 0xcf, 0x38, 0x59, 0x45, 0xb2, 0xbe, 0xc4, 0xea]

  lemma DigestIs(c: Regs)
    requires c == Regs(0xb37a4f2c, 0xc0624f16, 0x90f64606, 0xcf385945, 0xb2bec4ea)
    ensures Digest(c) == DIGEST
  {
    WordBytes(0xb3, 0x7a, 0x4f, 0x2c, c.a);
    WordBytes(0xc0, 0x62, 0x4f, 0x16, c.b);
    WordBytes(0x90, 0xf6, 0x46, 0x06, c.c);
    WordBytes(0xcf, 0x38, 0x59, 0x45, c.d);
    WordBytes(0xb2, 0xbe, 0xc4, 0xea, c.e);
    DigestParts();
  }

  lemma DigestParts()
    ensures [0xb3, 0x7a, 0x4f, 0x2c] + [0xc0, 0x62, 0x4f, 0x16] + [0x90, 0xf6, 0x46, 0x06] + [0xcf, 0x38, 0x59,
      0x45] + [0xb2, 0xbe, 0xc4, 0xea]
      == DIGEST
  {
  }

  /** The digest of the sample's key and GUID. */
  lemma SampleDigest(m: seq<byte>)
    requires m == KEY + GUID
    ensures Sha1(m) == DIGEST
  {
    var p := Padded(m);
    BlocksAre(m, p);
    var c := Compress(H0, p[..64]);
    AfterFirst(p[..64], H0, c);
    AfterSecond(p[64..], c, Compress(c, p[64..]));
    FoldTwo(H0, p, p[..64], p[64..]);
    DigestIs(Fold(H0, p));
  }

  lemma DigestLetters()
    ensures Letters(0xb3, 0x7a, 0x4f) == "s3pP"
    ensures Letters(0x2c, 0xc0, 0x62) == "LMBi"
    ensures Letters(0x4f, 0x16, 0x90) == "TxaQ"
    ensures Letters(0xf6, 0x46, 0x06) == "9kYG"
    ensures Letters(0xcf, 0x38, 0x59) == "zzhZ"
    ensures Letters(0x45, 0xb2, 0xbe) == "RbK+"
    ensures Letters(0xc4, 0xea, 0x00) == "xOoA"
  {
  }

  lemma DigestText64(d: seq<byte>)
    requires d == DIGEST
    ensures Base64(d) == "s3pPLMBiTxaQ9kYGzzhZRbK+xOo="
  {
    DigestLetters();
    TwentyBytes(d);
    TextParts();
  }

  /** The text of twenty bytes, group by group. */
  lemma TwentyBytes(d: seq<byte>)
    requires |d| == 20
    ensures Base64(d) == Letters(d[0], d[1], d[2]) + (Letters(d[3], d[4], d[5]) + (Letters(d[6], d[7], d[8])
      + (Letters(d[9], d[10], d[11]) + (Letters(d[12], d[13], d[14]) + (Letters(d[15], d[16], d[17])
      + (Letters(d[18], d[19], 0)[..3] + "="))))))
  {
    var text, letters := TextFrom(d), LettersAt(d);
    forall i | 0 <= i < 6 ensures text(i) == letters(i) + text(i + 1) {
      Base64Step(d, 3 * i);
    }
    SevenGroups(text, letters);
    Base64End(d);
    assert d[0..] == d;
  }

  function TextFrom(d: seq<byte>): nat -> string { (i: nat) => if 3 * i <= |d| then Base64(d[3 * i..]) else "" }

  function LettersAt(d: seq<byte>): nat -> string {
    (i: nat) => if 3 * i + 3 <= |d| then Letters(d[3 * i], d[3 * i + 1], d[3 * i + 2]) else ""
  }

  lemma SevenGroups(text: nat -> string, letters: nat -> string)
    requires forall i :: 0 <= i < 6 ==> text(i) == letters(i) + text(i + 1)
    ensures text(0) == letters(0) + (letters(1) + (letters(2) + (letters(3) + (letters(4) + (letters(5) + text(6))))))
  {
  }

  lemma TextParts()
    ensures "s3pP" + ("LMBi" + ("TxaQ" + ("9kYG" + ("zzhZ" + ("RbK+"
      + ("xOoA"[..3] + "=")))))) == "s3pPLMBiTxaQ9kYGzzhZRbK+xOo="
  {
  }

  lemma Base64Step(s: seq<byte>, i: nat)
    requires i + 3 <= |s|
    ensures Base64(s[i..]) == Letters(s[i], s[i + 1], s[i + 2]) + Base64(s[i + 3..])
  {
    assert s[i..][3..] == s[i + 3..];
  }

  lemma Base64End(s: seq<byte>)
    requires |s| == 20
    ensures Base64(s[18..]) == Letters(s[18], s[19], 0)[..3] + "="
  {
  }

  /** Section 1.3: the accept key that answers the sample nonce. */
  lemma SampleAccepted(key: seq<byte>)
    requires Ascii("dGhlIHNhbXBsZSBub25jZQ==", key)
    ensures Base64(Sha1(key + GUID)) == "s3pPLMBiTxaQ9kYGzzhZRbK+xOo="
  {
    KeyText();
    assert key == KEY;
    SampleDigest(key + GUID);
    DigestText64(Sha1(key + GUID));
  }
}
