/** Well-formed UTF-8 byte sequences (Unicode Standard, Table 3-7), as checked by
    `core::str::from_utf8`. */
module Utf8 {
  import opened Basics

  predicate Continuation(b: Byte) {
    0x80 <= b <= 0xBF
  }

  /** Length of the character at the front, or 0 if no well-formed character starts there. */
  function CharLen(s: seq<Byte>): (k: nat)
    ensures k <= |s| && k <= 4
    ensures k > 0 ==> !Continuation(s[0]) && forall i | 0 < i < k :: Continuation(s[i])
  {
    if s == [] then 0
    else if s[0] < 0x80 then 1
    else if |s| < 2 || !Continuation(s[1]) then 0
    else if 0xC2 <= s[0] <= 0xDF then 2
    else if |s| < 3 || !Continuation(s[2]) then 0
    else if s[0] == 0xE0 then (if s[1] >= 0xA0 then 3 else 0)
    else if s[0] == 0xED then (if s[1] <= 0x9F then 3 else 0)
    else if 0xE1 <= s[0] <= 0xEF then 3
    else if |s| < 4 || !Continuation(s[3]) then 0
    else if s[0] == 0xF0 then (if s[1] >= 0x90 then 4 else 0)
    else if s[0] == 0xF4 then (if s[1] <= 0x8F then 4 else 0)
    else if 0xF1 <= s[0] <= 0xF3 then 4
    else 0
  }

  predicate Valid(s: seq<Byte>) {
    s == [] || (CharLen(s) > 0 && Valid(s[CharLen(s)..]))
  }

  /** A character depends on its own bytes only, and needs all of them. */
  lemma {:induction false} CharLenOfPrefix(s: seq<Byte>, n: nat)
    requires n <= |s| && CharLen(s) > 0
    ensures n >= CharLen(s) ==> CharLen(s[..n]) == CharLen(s)
    ensures n < CharLen(s) ==> CharLen(s[..n]) == 0
  {
  }

  /** Cutting a valid string keeps it valid exactly at a character boundary. */
  lemma {:induction false} CutIsValidIff(s: seq<Byte>, n: nat)
    requires Valid(s) && n <= |s|
    ensures Valid(s[..n]) <==> n == |s| || !Continuation(s[n])
  {
    if n == |s| {
      assert s[..n] == s;
    } else if n > 0 {
      var k := CharLen(s);
      CharLenOfPrefix(s, n);
      if n >= k {
        assert s[..n][k..] == s[k..][..n - k];
        CutIsValidIff(s[k..], n - k);
      }
    }
  }

  // ----- The strings it accepts

  type Scalar = c: nat | c < 0xD800 || 0xE000 <= c < 0x11_0000

  /** The encoding of one Unicode scalar value, in digits of six bits (Unicode Standard,
      Table 3-6). */
  function Encode(c: Scalar): seq<Byte> {
    var d := c / 0x40;
    var e := d / 0x40;
    if c < 0x80 then [c]
    else if c < 0x800 then [0xC0 + d, Tail(c)]
    else if c < 0x1_0000 then [0xE0 + e, Tail(d), Tail(c)]
    else [0xF0 + e / 0x40, Tail(e), Tail(d), Tail(c)]
  }

  function Tail(n: nat): Byte {
    0x80 + n % 0x40
  }

  function Text(cs: seq<Scalar>): seq<Byte> {
    if cs == [] then [] else Encode(cs[0]) + Text(cs[1..])
  }

  lemma {:induction false} EncodedLen(c: Scalar, rest: seq<Byte>)
    ensures CharLen(Encode(c) + rest) == |Encode(c)|
  {
    var s := Encode(c) + rest;
    var d := c / 0x40;
    var e := d / 0x40;
    if c < 0x80 {
      assert s[0] == c;
    } else if c < 0x800 {
      assert s[0] == 0xC0 + d && s[1] == Tail(c);
    } else if c < 0x1_0000 {
      assert s[0] == 0xE0 + e && s[1] == Tail(d) && s[2] == Tail(c);
    } else {
      assert s[0] == 0xF0 + e / 0x40 && s[1] == Tail(e) && s[2] == Tail(d) && s[3] == Tail(c);
    }
  }

  lemma {:induction false} TextIsValid(cs: seq<Scalar>)
    ensures Valid(Text(cs))
  {
    if cs != [] {
      EncodedLen(cs[0], Text(cs[1..]));
      TextIsValid(cs[1..]);
      assert Text(cs)[|Encode(cs[0])|..] == Text(cs[1..]);
    }
  }

  lemma {:induction false} FirstIsEncoded(s: seq<Byte>) returns (c: Scalar)
    requires CharLen(s) > 0
    ensures Encode(c) == s[..CharLen(s)]
  {
    var a: int := s[0];
    if CharLen(s) == 1 {
      c := a;
    } else if CharLen(s) == 2 {
      c := (a - 0xC0) * 0x40 + (s[1] as int - 0x80);
    } else if CharLen(s) == 3 {
      c := Three(a - 0xE0, s[1] as int - 0x80, s[2] as int - 0x80);
    } else {
      c := Four(a - 0xF0, s[1] as int - 0x80, s[2] as int - 0x80, s[3] as int - 0x80);
    }
  }

  lemma {:induction false} Three(x: nat, y: nat, z: nat) returns (c: Scalar)
    requires x < 0x10 && y < 0x40 && z < 0x40 && (x == 0 ==> y >= 0x20) && (x == 13 ==> y < 0x20)
    ensures Encode(c) == [0xE0 + x, 0x80 + y, 0x80 + z]
  {
    var d := x * 0x40 + y;
    c := d * 0x40 + z;
    assert c / 0x40 == d && d / 0x40 == x;
  }

  lemma {:induction false} Four(x: nat, y: nat, z: nat, w: nat) returns (c: Scalar)
    requires x < 5 && y < 0x40 && z < 0x40 && w < 0x40 && (x == 0 ==> y >= 0x10) && (x == 4 ==> y < 0x10)
    ensures Encode(c) == [0xF0 + x, 0x80 + y, 0x80 + z, 0x80 + w]
  {
    var e := x * 0x40 + y;
    var d := e * 0x40 + z;
    c := d * 0x40 + w;
    assert c / 0x40 == d && d / 0x40 == e && e / 0x40 == x;
  }

  lemma {:induction false} TextOf(c: Scalar, cs: seq<Scalar>)
    ensures Text([c] + cs) == Encode(c) + Text(cs)
  {
    assert ([c] + cs)[1..] == cs;
  }

  lemma {:induction false} ValidIsText(s: seq<Byte>) returns (cs: seq<Scalar>)
    requires Valid(s)
    ensures Text(cs) == s
  {
    if s == [] {
      cs := [];
    } else {
      var k := CharLen(s);
      var c := FirstIsEncoded(s);
      var rest := ValidIsText(s[k..]);
      cs := [c] + rest;
      TextOf(c, rest);
      assert s[..k] + s[k..] == s;
    }
  }

  /** The bytes accepted are exactly the encodings of sequences of scalar values. */
  lemma {:induction false} ValidIff(s: seq<Byte>)
    ensures Valid(s) <==> exists cs :: Text(cs) == s
  {
    if Valid(s) { var cs := ValidIsText(s); }
    forall cs | Text(cs) == s ensures Valid(s) { TextIsValid(cs); }
  }
}
