/** sha1Block and sha1Raw of daemon/ws_pure.cpp, against RFC 3174. */
module Sha1Hash {
  import opened Arithmetic
  import opened Bits
  import opened WsFrame

  // ---------- SHA-1, as sections 4 to 6 of RFC 3174 define it ----------

  /** A 32-bit word; the operators are those of uint32_t, written out on integers. */
  type word = x: int | 0 <= x < 0x1_0000_0000

  function Add(x: word, y: word): word { (x as int + y as int) % 0x1_0000_0000 }

  function Not(x: word): word { 0xffff_ffff - x }

  function And(x: word, y: word): word { Pow2Word(); BitsBound(x, y, 32); AndBits(x, y, 32) }
  function Or(x: word, y: word): word { Pow2Word(); BitsBound(x, y, 32); OrBits(x, y, 32) }
  function Xor32(x: word, y: word): word { Pow2Word(); XorBound(x, y, 32); XorBits(x, y, 32) }

  /** Circular left shift: the bits pushed out come back on the right. */
  function Rotl(x: word, n: nat): word
    requires 0 < n < 32
  {
    (x as int * Pow2(n) + x / Pow2(32 - n)) % 0x1_0000_0000
  }

  // What the operators do to single bits.

  lemma AndOrXorBits(x: word, y: word, i: nat)
    requires i < 32
    ensures Bit(And(x, y), i) == 1 <==> Bit(x, i) == 1 && Bit(y, i) == 1
    ensures Bit(Or(x, y), i) == 1 <==> Bit(x, i) == 1 || Bit(y, i) == 1
    ensures Bit(Xor32(x, y), i) == 1 <==> Bit(x, i) != Bit(y, i)
  {
    AndBit(x, y, 32, i);
    OrBit(x, y, 32, i);
    XorBit(x, y, 32, i);
  }

  lemma NotBits(x: word, i: nat)
    requires i < 32
    ensures Bit(Not(x), i) == 1 - Bit(x, i)
  {
    Pow2Word();
    NotBit(x, 32, i);
  }

  /** The rotation of a word with upper part `hi` and lower part `lo`. */
  lemma RotlParts(x: word, n: nat, hi: nat, lo: nat)
    requires 0 < n < 32 && x == hi * Pow2(32 - n) + lo && lo < Pow2(32 - n) && hi < Pow2(n) && x / Pow2(32 - n) == hi
    ensures Rotl(x, n) == lo * Pow2(n) + hi
  {
    Pow2Add(32 - n, n);
    Pow2Word();
    Rotated(x, Pow2(n), Pow2(32 - n), hi, lo);
  }

  lemma Rotated(x: nat, p: nat, q: nat, hi: nat, lo: nat)
    requires q * p == 0x1_0000_0000 && x == hi * q + lo && lo < q && hi < p
    ensures (x * p + hi) % 0x1_0000_0000 == lo * p + hi
  {
    Distributes(hi, q, lo, p);
    MulMonotone(lo + 1, q, p);
    assert (lo + 1) * p == lo * p + p;
    QuotientIs(x * p + hi, 0x1_0000_0000, hi, lo * p + hi);
  }

  lemma Distributes(a: nat, b: nat, c: nat, d: nat)
    ensures (a * b + c) * d == a * (b * d) + c * d
  {
  }

  /** A word and its rotation, if the bits of both come from the same parts. */
  lemma SameParts(bit: (nat, nat) -> nat, hi: nat, lo: nat, n: nat, i: nat, x: nat, r: nat)
    requires 0 < n < 32 && i < 32 && bit(x, i) == if i < 32 - n then bit(lo, i) else bit(hi, i - (32 - n))
    requires var j := (i + n) % 32; bit(r, j) == if j < n then bit(hi, j) else bit(lo, j - n)
    ensures bit(r, (i + n) % 32) == bit(x, i)
  {
  }

  lemma BitOfParts(hi: nat, lo: nat, n: nat, j: nat, x: nat)
    requires lo < Pow2(n) && x == hi * Pow2(n) + lo
    ensures Bit(x, j) == if j < n then Bit(lo, j) else Bit(hi, j - n)
  {
    BitJoined(hi, lo, n, j);
  }

  /** Each bit moves up by `n`, those pushed out coming back at the bottom. */
  lemma RotlBit(x: word, n: nat, i: nat)
    requires 0 < n < 32 && i < 32
    ensures Bit(Rotl(x, n), (i + n) % 32) == Bit(x, i)
  {
    Pow2Word();
    var hi, lo := Halves(x, 32 - n, n);
    RotlParts(x, n, hi, lo);
    var r := Rotl(x, n);
    BitOfParts(hi, lo, 32 - n, i, x);
    BitOfParts(lo, hi, n, (i + n) % 32, r);
    SameParts(Bit, hi, lo, n, i, x, r);
  }

  function WordAt(block: seq<byte>, t: nat): word
    requires 4 * t + 4 <= |block|
  {
    block[4 * t] as int * 0x100_0000 + block[4 * t + 1] as int * 0x1_0000 + block[4 * t + 2] as int * 0x100
      + block[4 * t + 3]
  }

  /** W(t), the message schedule. */
  function Schedule(block: seq<byte>, t: nat): word
    requires |block| == 64 && t < 80
  {
    if t < 16 then WordAt(block, t)
    else Rotl(Xor32(Xor32(Xor32(Schedule(block, t - 3), Schedule(block, t - 8)), Schedule(block, t - 14)),
      Schedule(block, t - 16)), 1)
  }

  function Mix(t: nat, b: word, c: word, d: word): word {
    if t < 20 then Or(And(b, c), And(Not(b), d))
    else if t < 40 then Xor32(Xor32(b, c), d)
    else if t < 60 then Or(Or(And(b, c), And(b, d)), And(c, d))
    else Xor32(Xor32(b, c), d)
  }

  function RoundConstant(t: nat): word {
    if t < 20 then 0x5A827999 else if t < 40 then 0x6ED9EBA1 else if t < 60 then 0x8F1BBCDC else 0xCA62C1D6
  }

  /** The round function selects, takes the parity or takes the majority, bit by bit. */
  lemma MixBit(t: nat, b: word, c: word, d: word, i: nat)
    requires t < 80 && i < 32
    ensures var x, y, z := Bit(b, i), Bit(c, i), Bit(d, i);
      Bit(Mix(t, b, c, d), i) ==
      if t < 20 then (if x == 1 then y else z) else if 40 <= t < 60 then (x + y + z) / 2 else (x + y + z) % 2
  {
    if t < 20 {
      AndOrXorBits(b, c, i);
      NotBits(b, i);
      AndOrXorBits(Not(b), d, i);
      AndOrXorBits(And(b, c), And(Not(b), d), i);
    } else if 40 <= t < 60 {
      AndOrXorBits(b, c, i);
      AndOrXorBits(b, d, i);
      AndOrXorBits(c, d, i);
      AndOrXorBits(And(b, c), And(b, d), i);
      AndOrXorBits(Or(And(b, c), And(b, d)), And(c, d), i);
    } else {
      AndOrXorBits(b, c, i);
      AndOrXorBits(Xor32(b, c), d, i);
    }
  }

  /** The constants are the whole parts of 2^30 times the square roots of 2, 3, 5 and 10. */
  lemma RoundConstantIsRoot(t: nat)
    requires t < 80
    ensures var k, c := RoundConstant(t) as int, if t < 20 then 2 else if t < 40 then 3 else if t < 60 then 5 else 10;
      k * k <= c * 0x1000_0000_0000_0000 < (k + 1) * (k + 1)
  {
  }

  datatype Regs = Regs(a: word, b: word, c: word, d: word, e: word)

  function Round(r: Regs, t: nat, w: word): Regs {
    var a := Add(Add(Add(Add(Rotl(r.a, 5), Mix(t, r.b, r.c, r.d)), r.e), RoundConstant(t)), w);
    Regs(a, r.a, Rotl(r.b, 30), r.c, r.d)
  }

  /** The registers after `t` rounds. */
  function Rounds(h: Regs, block: seq<byte>, t: nat): Regs
    requires |block| == 64 && t <= 80
  {
    if t == 0 then h else Round(Rounds(h, block, t - 1), t - 1, Schedule(block, t - 1))
  }

  function Compress(h: Regs, block: seq<byte>): Regs
    requires |block| == 64
  {
    var r := Rounds(h, block, 80);
    Regs(Add(h.a, r.a), Add(h.b, r.b), Add(h.c, r.c), Add(h.d, r.d), Add(h.e, r.e))
  }

  function Zeros(n: nat): (s: seq<byte>)
    ensures |s| == n && forall i :: 0 <= i < n ==> s[i] == 0
  {
    seq(n, _ => 0)
  }

  /** Section 4: a one bit, zeros up to 448 modulo 512 bits, then the length in bits as two words. */
  function Trailer(n: nat): (t: seq<byte>)
    ensures (n + |t|) % 64 == 0 && 9 <= |t| < 73 && t[0] == 0x80
    ensures forall k :: 1 <= k < |t| - 8 ==> t[k] == 0
    ensures t[|t| - 8..] == BytesOf(8 * n, 8)
  {
    FillsBlock(n);
    [0x80] + Zeros((119 - n % 64) % 64) + BytesOf(8 * n, 8)
  }

  function Padded(m: seq<byte>): (p: seq<byte>)
    ensures |p| % 64 == 0
  {
    m + Trailer(|m|)
  }

  /** The compression step folded over the blocks of a padded message. */
  function Fold(h: Regs, p: seq<byte>): Regs
    decreases |p|
  {
    if |p| < 64 then h else Fold(Compress(h, p[..64]), p[64..])
  }

  const H0 := Regs(0x67452301, 0xEFCDAB89, 0x98BADCFE, 0x10325476, 0xC3D2E1F0)

  function Digest(h: Regs): (s: seq<byte>)
    ensures |s| == 20
  {
    BytesOf(h.a, 4) + BytesOf(h.b, 4) + BytesOf(h.c, 4) + BytesOf(h.d, 4) + BytesOf(h.e, 4)
  }

  function Sha1(m: seq<byte>): (s: seq<byte>)
    ensures |s| == 20
  {
    Digest(Fold(H0, Padded(m)))
  }

  // ---------- sha1Block and sha1Raw ----------

  ghost function RegsOf(h: array<word>): Regs
    requires h.Length == 5
    reads h
  {
    Regs(h[0], h[1], h[2], h[3], h[4])
  }

  method MessageSchedule(block: array<byte>) returns (w: array<word>)
    requires block.Length == 64
    ensures fresh(w) && w.Length == 80 && forall t :: 0 <= t < 80 ==> w[t] == Schedule(block[..], t)
  {
    w := new word[80](_ => 0);
    for i := 0 to 16
      invariant forall t :: 0 <= t < i ==> w[t] == Schedule(block[..], t)
    {
      w[i] := block[i * 4] as int * 0x100_0000 + block[i * 4 + 1] as int * 0x1_0000 + block[i * 4 + 2] as int * 0x100
        + block[i * 4 + 3];
      assert w[i] == WordAt(block[..], i);
    }
    for i := 16 to 80
      invariant forall t :: 0 <= t < i ==> w[t] == Schedule(block[..], t)
    {
      w[i] := Rotl(Xor32(Xor32(Xor32(w[i - 3], w[i - 8]), w[i - 14]), w[i - 16]), 1);
    }
  }

  /** The body of the round loop. */
  method OneRound(r: Regs, t: nat, w: word) returns (next: Regs)
    ensures next == Round(r, t, w)
  {
    var f: word, k: word;
    if t < 20 {
      f, k := Or(And(r.b, r.c), And(Not(r.b), r.d)), 0x5A827999;
    } else if t < 40 {
      f, k := Xor32(Xor32(r.b, r.c), r.d), 0x6ED9EBA1;
    } else if t < 60 {
      f, k := Or(Or(And(r.b, r.c), And(r.b, r.d)), And(r.c, r.d)), 0x8F1BBCDC;
    } else {
      f, k := Xor32(Xor32(r.b, r.c), r.d), 0xCA62C1D6;
    }
    next := Regs(Add(Add(Add(Add(Rotl(r.a, 5), f), r.e), k), w), r.a, Rotl(r.b, 30), r.c, r.d);
  }

  /** sha1Block: updates the five state words in place. */
  method Sha1Block(block: array<byte>, h: array<word>)
    requires block.Length == 64 && h.Length == 5
    modifies h
    ensures RegsOf(h) == Compress(old(RegsOf(h)), block[..])
  {
    var w := MessageSchedule(block);
    var r := Regs(h[0], h[1], h[2], h[3], h[4]);
    for t := 0 to 80
      invariant r == Rounds(old(RegsOf(h)), block[..], t)
      invariant RegsOf(h) == old(RegsOf(h))
      invariant forall u :: 0 <= u < 80 ==> w[u] == Schedule(block[..], u)
    {
      r := OneRound(r, t, w[t]);
    }
    h[0], h[1], h[2], h[3], h[4] := Add(h[0], r.a), Add(h[1], r.b), Add(h[2], r.c), Add(h[3], r.d), Add(h[4], r.e);
  }

  /** sha1Raw: whole blocks from the input, then one or two blocks of padding built in the same buffer. */
  method Sha1Raw(input: seq<byte>) returns (out: seq<byte>)
    ensures out == Sha1(input)
  {
    var h := new word[5][0x67452301, 0xEFCDAB89, 0x98BADCFE, 0x10325476, 0xC3D2E1F0];
    var block := new byte[64](_ => 0);
    var i := WholeBlocks(input, Trailer(|input|), block, h);
    FinalBlocks(input[i..], |input|, block, h);
    out := DigestOf(h);
  }

  method WholeBlocks(input: seq<byte>, ghost t: seq<byte>, block: array<byte>, h: array<word>) returns (i: nat)
    requires block.Length == 64 && h.Length == 5
    modifies block, h
    ensures i <= |input| && |input| - i == |input| % 64
    ensures Fold(RegsOf(h), input[i..] + t) == Fold(old(RegsOf(h)), input + t)
  {
    i := 0;
    ghost var m := 0;
    assert input[0..] == input;
    while i + 64 <= |input|
      invariant i <= |input| && i == 64 * m
      invariant Fold(RegsOf(h), input[i..] + t) == Fold(old(RegsOf(h)), input + t)
    {
      LoadBlock(block, input[i..i + 64]);
      FoldStep(RegsOf(h), input, i, t, block[..]);
      Sha1Block(block, h);
      i, m := i + 64, m + 1;
    }
    LeftOver(|input|, m);
  }

  /** memcpy of one block. */
  method LoadBlock(block: array<byte>, s: seq<byte>)
    requires block.Length == 64 == |s|
    modifies block
    ensures block[..] == s
  {
    forall k | 0 <= k < 64 {
      block[k] := s[k];
    }
  }

  lemma FoldStep(r: Regs, input: seq<byte>, i: nat, t: seq<byte>, b: seq<byte>)
    requires i + 64 <= |input| && b == input[i..i + 64]
    ensures Fold(r, input[i..] + t) == Fold(Compress(r, b), input[i + 64..] + t)
  {
    var p := input[i..] + t;
    assert p[..64] == b;
    assert p[64..] == input[i + 64..] + t;
  }

  lemma FoldOne(r: Regs, b: seq<byte>)
    requires |b| == 64
    ensures Fold(r, b) == Compress(r, b)
  {
    assert b[..64] == b && b[64..] == [];
    assert Fold(Compress(r, b), []) == Compress(r, b);
  }

  lemma FoldTwo(r: Regs, p: seq<byte>, b: seq<byte>, c: seq<byte>)
    requires |b| == 64 && |c| == 64 && p == b + c
    ensures Fold(r, p) == Compress(Compress(r, b), c)
  {
    assert p[..64] == b && p[64..] == c;
    FoldOne(Compress(r, b), c);
  }

  /** The final block(s) of an input of `n` bytes whose last `|tail|` are left over. */
  method FinalBlocks(tail: seq<byte>, n: nat, block: array<byte>, h: array<word>)
    requires |tail| == n % 64 && block.Length == 64 && h.Length == 5
    modifies block, h
    ensures RegsOf(h) == Fold(old(RegsOf(h)), tail + Trailer(n))
  {
    var rem := |tail|;
    ghost var p := tail + Trailer(n);
    forall k | 0 <= k < rem {
      block[k] := tail[k];
    }
    block[rem] := 0x80;
    ghost var first: seq<byte> := [];
    if rem + 1 > 56 {
      forall k | rem + 1 <= k < 64 {
        block[k] := 0;
      }
      first := block[..];
      assert first == p[..64];
      Sha1Block(block, h);
      forall k | 0 <= k < 56 {
        block[k] := 0;
      }
    } else {
      forall k | rem + 1 <= k < 56 {
        block[k] := 0;
      }
    }
    PutLength(block, 8 * n);
    ghost var last := block[..];
    LastBlock(tail, n, last, first != []);
    if first != [] {
      FoldTwo(old(RegsOf(h)), p, first, last);
    } else {
      FoldOne(old(RegsOf(h)), last);
    }
    Sha1Block(block, h);
  }

  /** Byte `k` of the last block, in front of the length. */
  function LastByte(tail: seq<byte>, second: bool, k: nat): byte {
    if second || k > |tail| then 0 else if k == |tail| then 0x80 else tail[k]
  }

  lemma LastBlock(tail: seq<byte>, n: nat, last: seq<byte>, second: bool)
    requires |tail| == n % 64 && second == (|tail| >= 56)
    requires |last| == 64 && last[56..] == BytesOf(8 * n, 8)
    requires forall k :: 0 <= k < 56 ==> last[k] == LastByte(tail, second, k)
    ensures var p := tail + Trailer(n);
      if second then |p| == 128 && p[64..] == last else p == last
  {
    var t := Trailer(n);
    var p := tail + t;
    PaddedSize(n, |t|);
    LastBytes(tail, t, last, second, BytesOf(8 * n, 8));
    assert second || p[0..] == p;
  }

  lemma LastBytes(tail: seq<byte>, t: seq<byte>, last: seq<byte>, second: bool, length: seq<byte>)
    requires |tail| < 64 && second == (|tail| >= 56)
    requires |tail| + |t| == (if second then 128 else 64) && |t| >= 9 && t[0] == 0x80
    requires (forall k :: 1 <= k < |t| - 8 ==> t[k] == 0) && t[|t| - 8..] == length
    requires |last| == 64 && last[56..] == length && forall k :: 0 <= k < 56 ==> last[k] == LastByte(tail, second, k)
    ensures (tail + t)[|tail| + |t| - 64..] == last
  {
    var p, off := tail + t, |tail| + |t| - 64;
    forall k | 0 <= k < 64 ensures p[off + k] == last[k] {
      if k >= 56 {
        assert last[k] == last[56..][k - 56] == t[|t| - 8..][k - 56];
      } else {
        assert last[k] == LastByte(tail, second, k);
      }
    }
  }

  method PutLength(block: array<byte>, bits: nat)
    requires block.Length == 64
    modifies block
    ensures block[..56] == old(block[..56]) && block[56..] == BytesOf(bits, 8)
  {
    var rest: nat := bits;
    for b := 0 to 8
      invariant block[..56] == old(block[..56])
      invariant BytesOf(bits, 8) == BytesOf(rest, 8 - b) + block[64 - b..]
    {
      assert BytesOf(rest, 8 - b) == BytesOf(rest / 256, 7 - b) + [rest % 256];
      ghost var done := block[64 - b..];
      block[63 - b] := rest % 256;
      assert block[63 - b..] == [rest % 256] + done;
      rest := rest / 256;
    }
    assert block[56..] == BytesOf(bits, 8);
  }

  method DigestOf(h: array<word>) returns (out: seq<byte>)
    requires h.Length == 5
    ensures out == Digest(RegsOf(h))
  {
    out := [];
    for j := 0 to 5
      invariant out == Digest(RegsOf(h))[..4 * j]
    {
      assert Digest(RegsOf(h))[4 * j..4 * j + 4] == BytesOf(h[j], 4);
      out := out + BytesOf(h[j], 4);
    }
  }
}
