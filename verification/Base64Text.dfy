/** base64Encode of daemon/ws_pure.cpp, against section 4 of RFC 4648. */
module Base64Text {
  import opened Arithmetic
  import opened WsFrame

  // ---------- Base64, section 4 of RFC 4648 ----------

  /** Table 1: A-Z, a-z, 0-9, +, /. */
  function Letter(v: nat): char
    requires v < 64
  {
    if v < 26 then ('A' as int + v) as char
    else if v < 52 then ('a' as int + v - 26) as char
    else if v < 62 then ('0' as int + v - 52) as char
    else if v == 62 then '+' else '/'
  }

  predicate IsLetter(c: char) { 'A' <= c <= 'Z' || 'a' <= c <= 'z' || '0' <= c <= '9' || c == '+' || c == '/' }

  function Sextet(c: char): (v: nat)
    requires IsLetter(c)
    ensures v < 64
  {
    if 'A' <= c <= 'Z' then c as int - 'A' as int
    else if 'a' <= c <= 'z' then c as int - 'a' as int + 26
    else if '0' <= c <= '9' then c as int - '0' as int + 52
    else if c == '+' then 62 else 63
  }

  lemma LetterSextet(v: nat)
    requires v < 64
    ensures IsLetter(Letter(v)) && Sextet(Letter(v)) == v && Letter(v) != '='
  {
  }

  /** The four sextets of 24 bits. */
  function Quad(n: nat): string
    requires n < 0x100_0000
  {
    [Letter(n / 0x4_0000), Letter(n / 0x1000 % 64), Letter(n / 0x40 % 64), Letter(n % 64)]
  }

  function Group(a: byte, b: byte, c: byte): nat { a as int * 0x1_0000 + b as int * 0x100 + c }

  function Base64(s: seq<byte>): string {
    if s == [] then ""
    else if |s| == 1 then Letters(s[0], 0, 0)[..2] + "=="
    else if |s| == 2 then Letters(s[0], s[1], 0)[..3] + "="
    else Letters(s[0], s[1], s[2]) + Base64(s[3..])
  }

  /** The decoder: "=" only at the end, None for anything that is not Base64. */
  datatype Decoded = Bytes(bytes: seq<byte>) | Malformed

  function Unquad(a: nat, b: nat, c: nat, d: nat): (s: seq<byte>)
    requires a < 64 && b < 64 && c < 64 && d < 64
    ensures |s| == 3
  {
    [a * 4 + b / 16, b % 16 * 16 + c / 4, c % 4 * 64 + d]
  }

  function Decode(t: string): Decoded {
    if t == "" then Bytes([])
    else if |t| < 4 || !IsLetter(t[0]) || !IsLetter(t[1]) then Malformed
    else
      var a, b := Sextet(t[0]), Sextet(t[1]);
      if t[2..] == "==" then Bytes(Unquad(a, b, 0, 0)[..1])
      else if !IsLetter(t[2]) then Malformed
      else if t[3..] == "=" then Bytes(Unquad(a, b, Sextet(t[2]), 0)[..2])
      else if !IsLetter(t[3]) then Malformed
      else
        match Decode(t[4..])
        case Bytes(rest) => Bytes(Unquad(a, b, Sextet(t[2]), Sextet(t[3])) + rest)
        case Malformed => Malformed
  }

  /** The sextets of a group, byte by byte. */
  lemma GroupSextets(a: byte, b: byte, c: byte)
    ensures var n := Group(a, b, c);
      && n < 0x100_0000 && n / 0x4_0000 == a / 4 && n / 0x1000 % 64 == a % 4 * 16 + b / 16
      && n / 0x40 % 64 == b % 16 * 4 + c / 64 && n % 64 == c % 64
  {
    var w, x, y, z := a / 4, a % 4 * 16 + b / 16, b % 16 * 4 + c / 64, c % 64;
    FourDigits(w, x, y, z);
    assert Group(a, b, c) == w * 0x4_0000 + x * 0x1000 + y * 0x40 + z;
  }

  function Letters(a: byte, b: byte, c: byte): (t: string)
    ensures |t| == 4
  {
    [Letter(a / 4), Letter(a % 4 * 16 + b / 16), Letter(b % 16 * 4 + c / 64), Letter(c % 64)]
  }

  lemma QuadLetters(a: byte, b: byte, c: byte)
    ensures Group(a, b, c) < 0x100_0000 && Quad(Group(a, b, c)) == Letters(a, b, c)
  {
    GroupSextets(a, b, c);
  }

  lemma UnquadBytes(a: byte, b: byte, c: byte)
    ensures Unquad(a / 4, a % 4 * 16 + b / 16, b % 16 * 4 + c / 64, c % 64) == [a, b, c]
  {
    TwoDigits(a % 4, b / 16, 16);
    TwoDigits(b % 16, c / 64, 4);
  }

  /** Reading the four letters of a group back. */
  lemma LettersDecode(t: string, a: byte, b: byte, c: byte)
    requires t == Letters(a, b, c)
    ensures IsLetter(t[0]) && IsLetter(t[1]) && IsLetter(t[2]) && IsLetter(t[3])
    ensures Sextet(t[0]) == a / 4 && Sextet(t[1]) == a % 4 * 16 + b / 16
    ensures Sextet(t[2]) == b % 16 * 4 + c / 64 && Sextet(t[3]) == c % 64
  {
    LetterSextet(a / 4);
    LetterSextet(a % 4 * 16 + b / 16);
    LetterSextet(b % 16 * 4 + c / 64);
    LetterSextet(c % 64);
  }

  lemma DecodeGroup(a: byte, b: byte, c: byte, t: string)
    requires Decode(t).Bytes?
    ensures Decode(Letters(a, b, c) + t) == Bytes([a, b, c] + Decode(t).bytes)
  {
    var q := Letters(a, b, c);
    LettersDecode(q, a, b, c);
    UnquadBytes(a, b, c);
    DecodeFour(q, t);
  }

  lemma DecodeFour(q: string, t: string)
    requires |q| == 4 && IsLetter(q[0]) && IsLetter(q[1]) && IsLetter(q[2]) && IsLetter(q[3]) && Decode(t).Bytes?
    ensures Decode(q + t) == Bytes(Unquad(Sextet(q[0]), Sextet(q[1]), Sextet(q[2]), Sextet(q[3])) + Decode(t).bytes)
  {
    var u := q + t;
    assert u[4..] == t;
    assert u[2..][0] == q[2] && u[3..][0] == q[3];
  }

  lemma DecodeOneByte(a: byte)
    ensures Decode(Letters(a, 0, 0)[..2] + "==") == Bytes([a])
  {
    var q := Letters(a, 0, 0);
    LettersDecode(q, a, 0, 0);
    UnquadBytes(a, 0, 0);
    var t := q[..2] + "==";
    assert t[0] == q[0] && t[1] == q[1] && t[2..] == "==";
    assert [a, 0, 0][..1] == [a];
  }

  lemma DecodeTwoBytes(a: byte, b: byte)
    ensures Decode(Letters(a, b, 0)[..3] + "=") == Bytes([a, b])
  {
    var q := Letters(a, b, 0);
    LettersDecode(q, a, b, 0);
    UnquadBytes(a, b, 0);
    var t := q[..3] + "=";
    assert t[0] == q[0] && t[1] == q[1] && t[2] == q[2] && t[3..] == "=";
    assert t[2..][0] == q[2];
    assert [a, b, 0][..2] == [a, b];
  }

  lemma {:induction false} Base64RoundTrip(s: seq<byte>)
    ensures Decode(Base64(s)) == Bytes(s)
  {
    if |s| == 1 {
      DecodeOneByte(s[0]);
      assert s == [s[0]];
    } else if |s| == 2 {
      DecodeTwoBytes(s[0], s[1]);
      assert s == [s[0], s[1]];
    } else if |s| > 2 {
      Base64RoundTrip(s[3..]);
      RoundTripGroup(s, Base64(s[3..]));
    }
  }

  lemma RoundTripGroup(s: seq<byte>, t: string)
    requires |s| > 2 && Decode(t) == Bytes(s[3..])
    ensures Decode(Letters(s[0], s[1], s[2]) + t) == Bytes(s)
  {
    DecodeGroup(s[0], s[1], s[2], t);
    assert s == [s[0], s[1], s[2]] + s[3..];
  }

  lemma {:induction false} Base64Length(s: seq<byte>)
    ensures |Base64(s)| == 4 * ((|s| + 2) / 3)
  {
    if |s| > 2 {
      Base64Length(s[3..]);
      assert (|s| + 2) / 3 == (|s| - 3 + 2) / 3 + 1;
    }
  }

  lemma {:induction false} EncodesTo(s: seq<byte>, n: nat, length: nat)
    requires |s| == n && length == 4 * ((n + 2) / 3)
    ensures |Base64(s)| == length && Decode(Base64(s)) == Bytes(s)
  {
    Base64Length(s);
    Base64RoundTrip(s);
  }

  /** base64Encode. */
  method Base64Encode(input: seq<byte>) returns (out: string)
    ensures out == Base64(input)
  {
    out := "";
    var i := 0;
    assert input[0..] == input;
    while i + 3 <= |input|
      invariant 0 <= i <= |input|
      invariant Base64(input) == out + Base64(input[i..])
    {
      var n := input[i] as int * 0x1_0000 + input[i + 1] as int * 0x100 + input[i + 2];
      QuadLetters(input[i], input[i + 1], input[i + 2]);
      var q := Quad(n);
      assert input[i..][3..] == input[i + 3..];
      out := out + q;
      i := i + 3;
    }
    if i < |input| {
      var last := LastQuad(input[i..]);
      out := out + last;
    }
  }

  /** The one or two bytes left over. */
  method LastQuad(s: seq<byte>) returns (out: string)
    requires |s| == 1 || |s| == 2
    ensures out == Base64(s)
  {
    var n := s[0] as int * 0x1_0000;
    if 1 < |s| {
      n := n + s[1] as int * 0x100;
    }
    GroupSextets(s[0], if 1 < |s| then s[1] else 0, 0);
    out := [Letter(n / 0x4_0000), Letter(n / 0x1000 % 64)];
    if 1 < |s| {
      out := out + [Letter(n / 0x40 % 64)] + "=";
    } else {
      out := out + "==";
    }
  }
}
