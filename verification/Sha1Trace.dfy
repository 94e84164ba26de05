/** Runs of the compression function on bit vectors, checked step by step against tables of its intermediate values. */
module Sha1Trace {
  import opened WsFrame
  import opened Sha1Hash
  import opened WordVectors

  /** One of eight table entries. */
  function Pick(i: int, v0: bv32, v1: bv32, v2: bv32, v3: bv32, v4: bv32, v5: bv32, v6: bv32, v7: bv32): bv32 {
    if i < 4 then (if i == 0 then v0 else if i == 1 then v1 else if i == 2 then v2 else v3)
    else if i == 4 then v4 else if i == 5 then v5 else if i == 6 then v6 else v7
  }

  /** A property of the first entries of a run of entries holds of each. */
  lemma Among4(p: nat -> bool, lo: nat, t: nat)
    requires lo <= t < lo + 4 && p(lo) && p(lo + 1) && p(lo + 2) && p(lo + 3)
    ensures p(t)
  {
  }

  lemma Among5(p: nat -> bool, lo: nat, t: nat)
    requires lo <= t < lo + 5 && p(lo) && p(lo + 1) && p(lo + 2) && p(lo + 3) && p(lo + 4)
    ensures p(t)
  {
  }

  function Turned(v: bv32): bv32 { (v << 1) | (v >> 31) }

  lemma TurnedIs(v: bv32)
    ensures Turned(v) == Rot1(v)
  {
  }

  function NextWord(w3: bv32, w8: bv32, w14: bv32, w16: bv32): bv32 {
    Turned(XorV(XorV(XorV(w3, w8), w14), w16))
  }

  /** The sum that becomes register a, from the last five values of a. */
  function NextA(t: nat, w: bv32, a: bv32, b: bv32, c: bv32, d: bv32, e: bv32): bv32 {
    AddV(AddV(AddV(AddV(Rot5(a), MixV(t, b, Rot30(c), Rot30(d))), Rot30(e)), ConstantV(t)), w)
  }

  lemma BvXors(x: word, y: word, z: word, u: word, p: word, q: word, v: word)
    requires p == Xor32(x, y) && q == Xor32(p, z) && v == Xor32(q, u)
    ensures Bv(v) == XorV(XorV(XorV(Bv(x), Bv(y)), Bv(z)), Bv(u))
  {
    BvXor32(x, y, p);
    BvXor32(p, z, q);
    BvXor32(q, u, v);
  }

  lemma BvSchedule(block: seq<byte>, t: nat)
    requires |block| == 64 && 16 <= t < 80
    ensures Bv(Schedule(block, t)) == NextWord(Bv(Schedule(block, t - 3)), Bv(Schedule(block, t - 8)),
      Bv(Schedule(block, t - 14)), Bv(Schedule(block, t - 16)))
  {
    var x, y, z, u := Schedule(block, t - 3), Schedule(block, t - 8), Schedule(block, t - 14), Schedule(block, t - 16);
    var p := Xor32(x, y);
    var q := Xor32(p, z);
    var v := Xor32(q, u);
    BvXors(x, y, z, u, p, q, v);
    BvRot1(v, Schedule(block, t));
    TurnedIs(Bv(v));
  }

  ghost predicate Recurs<V>(w: nat -> V, next: (V, V, V, V) -> V, t: nat)
    requires t >= 16
  {
    w(t) == next(w(t - 3), w(t - 8), w(t - 14), w(t - 16))
  }

  /** Two tables with the same first words and the same recurrence are the same. */
  lemma {:induction false} SameWords<V>(v: nat -> V, w: nat -> V, next: (V, V, V, V) -> V, t: nat)
    requires t < 80
    requires forall u :: 0 <= u < 16 ==> v(u) == w(u)
    requires forall u :: 16 <= u < 80 ==> Recurs(v, next, u)
    requires forall u :: 16 <= u < 80 ==> Recurs(w, next, u)
    ensures v(t) == w(t)
  {
    if t >= 16 {
      SameWords(v, w, next, t - 3);
      SameWords(v, w, next, t - 8);
      SameWords(v, w, next, t - 14);
      SameWords(v, w, next, t - 16);
      assert Recurs(v, next, t) && Recurs(w, next, t);
    }
  }

  lemma ScheduleIs(block: seq<byte>, w: nat -> bv32, t: nat)
    requires |block| == 64 && t < 80
    requires forall u :: 0 <= u < 16 ==> Bv(WordAt(block, u)) == w(u)
    requires forall u :: 16 <= u < 80 ==> Recurs(w, NextWord, u)
    ensures Bv(Schedule(block, t)) == w(t)
  {
    var v := Words(block);
    forall u | 16 <= u < 80 ensures Recurs(v, NextWord, u) {
      BvSchedule(block, u);
    }
    forall u | 0 <= u < 16 ensures v(u) == w(u) {
      assert Schedule(block, u) == WordAt(block, u);
    }
    SameWords(v, w, NextWord, t);
  }

  function Words(block: seq<byte>): nat -> bv32
    requires |block| == 64
  {
    (u: nat) => if u < 80 then Bv(Schedule(block, u)) else 0
  }

  /** The registers as the last five values of a. */
  ghost predicate RegsAre(r: Regs, a: bv32, b: bv32, c: bv32, d: bv32, e: bv32) {
    Bv(r.a) == a && Bv(r.b) == b && Bv(r.c) == Rot30(c) && Bv(r.d) == Rot30(d) && Bv(r.e) == Rot30(e)
  }

  lemma BvSums(p: word, q: word, r: word, s: word, u: word)
    ensures Bv(Add(Add(Add(Add(p, q), r), s), u)) == AddV(AddV(AddV(AddV(Bv(p), Bv(q)), Bv(r)), Bv(s)), Bv(u))
  {
    var x := Add(p, q);
    var y := Add(x, r);
    var z := Add(y, s);
    BvAdd(p, q);
    BvAdd(x, r);
    BvAdd(y, s);
    BvAdd(z, u);
  }

  lemma RoundStep(r: Regs, t: nat, w: word, a: bv32, b: bv32, c: bv32, d: bv32, e: bv32)
    requires RegsAre(r, a, b, c, d, e)
    ensures RegsAre(Round(r, t, w), NextA(t, Bv(w), a, b, c, d, e), a, b, c, d)
  {
    var p, q, k := Rotl(r.a, 5), Mix(t, r.b, r.c, r.d), RoundConstant(t);
    BvRot5(r.a, p);
    BvMix(t, r.b, r.c, r.d);
    BvConstant(t, k);
    BvSums(p, q, r.e, k, w);
    BvRot30(r.b, Rotl(r.b, 30));
  }

  ghost predicate Advances<V>(a: nat -> V, next: (nat, V, V, V, V, V) -> V, t: nat) {
    a(t + 5) == next(t, a(t + 4), a(t + 3), a(t + 2), a(t + 1), a(t))
  }

  ghost predicate HandsOn<V(!new)>(at: (nat, V, V, V, V, V) -> bool, next: (nat, V, V, V, V, V) -> V, t: nat) {
    forall a, b, c, d, e :: at(t, a, b, c, d, e) ==> at(t + 1, next(t, a, b, c, d, e), a, b, c, d)
  }

  /** A property that each step hands on, along a table of steps. */
  lemma {:induction false} StepsLead<V(!new)>(at: (nat, V, V, V, V, V) -> bool, next: (nat, V, V, V, V, V) -> V,
      a: nat -> V, n: nat, t: nat)
    requires t <= n && at(0, a(4), a(3), a(2), a(1), a(0))
    requires forall u :: 0 <= u < n ==> HandsOn(at, next, u)
    requires forall u :: 0 <= u < n ==> Advances(a, next, u)
    ensures at(t, a(t + 4), a(t + 3), a(t + 2), a(t + 1), a(t))
  {
    if t > 0 {
      var u := t - 1;
      StepsLead(at, next, a, n, u);
      assert HandsOn(at, next, u) && Advances(a, next, u);
      assert at(u, a(u + 4), a(u + 3), a(u + 2), a(u + 1), a(u));
    }
  }

  /** What the compression adds up, if the tables `w` and `a` are right. */
  lemma CompressIs(h: Regs, block: seq<byte>, w: nat -> bv32, a: nat -> bv32)
    requires |block| == 64 && RegsAre(h, a(4), a(3), a(2), a(1), a(0))
    requires forall u :: 0 <= u < 16 ==> Bv(WordAt(block, u)) == w(u)
    requires forall u :: 16 <= u < 80 ==> Recurs(w, NextWord, u)
    requires forall u :: 0 <= u < 80 ==> Advances(a, NextWith(w), u)
    ensures var c := Compress(h, block);
      Bv(c.a) == AddV(a(4), a(84)) && Bv(c.b) == AddV(a(3), a(83)) && Bv(c.c) == AddV(Rot30(a(2)), Rot30(a(82)))
      && Bv(c.d) == AddV(Rot30(a(1)), Rot30(a(81))) && Bv(c.e) == AddV(Rot30(a(0)), Rot30(a(80)))
  {
    RoundsAre(h, block, w, a);
    AddRegs(h, Rounds(h, block, 80), Compress(h, block));
  }

  function NextWith(w: nat -> bv32): (nat, bv32, bv32, bv32, bv32, bv32) -> bv32 {
    (t: nat, a: bv32, b: bv32, c: bv32, d: bv32, e: bv32) => NextA(t, w(t), a, b, c, d, e)
  }

  ghost function RoundIs(h: Regs, block: seq<byte>): (nat, bv32, bv32, bv32, bv32, bv32) -> bool
    requires |block| == 64
  {
    (t: nat, a: bv32, b: bv32, c: bv32, d: bv32, e: bv32) => t <= 80 && RegsAre(Rounds(h, block, t), a, b, c, d, e)
  }

  lemma RoundsAre(h: Regs, block: seq<byte>, w: nat -> bv32, a: nat -> bv32)
    requires |block| == 64 && RegsAre(h, a(4), a(3), a(2), a(1), a(0))
    requires forall u :: 0 <= u < 16 ==> Bv(WordAt(block, u)) == w(u)
    requires forall u :: 16 <= u < 80 ==> Recurs(w, NextWord, u)
    requires forall u :: 0 <= u < 80 ==> Advances(a, NextWith(w), u)
    ensures RegsAre(Rounds(h, block, 80), a(84), a(83), a(82), a(81), a(80))
  {
    var at, next := RoundIs(h, block), NextWith(w);
    forall u | 0 <= u < 80 ensures HandsOn(at, next, u) {
      RoundHandsOn(h, block, w, u);
    }
    assert Rounds(h, block, 0) == h;
    StepsLead(at, next, a, 80, 80);
  }

  lemma RoundHandsOn(h: Regs, block: seq<byte>, w: nat -> bv32, t: nat)
    requires |block| == 64 && t < 80
    requires forall u :: 0 <= u < 16 ==> Bv(WordAt(block, u)) == w(u)
    requires forall u :: 16 <= u < 80 ==> Recurs(w, NextWord, u)
    ensures HandsOn(RoundIs(h, block), NextWith(w), t)
  {
    ScheduleIs(block, w, t);
    StepHandsOn(h, block, w, t);
  }

  lemma StepHandsOn(h: Regs, block: seq<byte>, w: nat -> bv32, t: nat)
    requires |block| == 64 && t < 80 && Bv(Schedule(block, t)) == w(t)
    ensures HandsOn(RoundIs(h, block), NextWith(w), t)
  {
    var at, next, r, x := RoundIs(h, block), NextWith(w), Rounds(h, block, t), Schedule(block, t);
    forall a, b, c, d, e | at(t, a, b, c, d, e) ensures at(t + 1, next(t, a, b, c, d, e), a, b, c, d) {
      RoundStep(r, t, x, a, b, c, d, e);
      assert Rounds(h, block, t + 1) == Round(r, t, x);
    }
  }

  lemma AddRegs(h: Regs, r: Regs, c: Regs)
    requires c == Regs(Add(h.a, r.a), Add(h.b, r.b), Add(h.c, r.c), Add(h.d, r.d), Add(h.e, r.e))
    ensures Bv(c.a) == AddV(Bv(h.a), Bv(r.a)) && Bv(c.b) == AddV(Bv(h.b), Bv(r.b)) && Bv(c.c) == AddV(Bv(h.c), Bv(r.c))
    ensures Bv(c.d) == AddV(Bv(h.d), Bv(r.d)) && Bv(c.e) == AddV(Bv(h.e), Bv(r.e))
  {
    BvAdd(h.a, r.a);
    BvAdd(h.b, r.b);
    BvAdd(h.c, r.c);
    BvAdd(h.d, r.d);
    BvAdd(h.e, r.e);
  }
}
