/** UTF-8, section 3 of RFC 3629, over octets. */
module Utf8 {
  import opened Wrappers
  import opened Base64

  function Octet(c: char): seq<Byte> {
    var n := c as int;
    if n < 0x80 then [n]
    else if n < 0x800 then [0xC0 + n / 64, 0x80 + n % 64]
    else if n < 0x1_0000 then [0xE0 + n / 4096, 0x80 + n / 64 % 64, 0x80 + n % 64]
    else [0xF0 + n / 262144, 0x80 + n / 4096 % 64, 0x80 + n / 64 % 64, 0x80 + n % 64]
  }

  function Encode(s: string): seq<Byte> {
    if s == "" then [] else Octet(s[0]) + Encode(s[1..])
  }

  predicate Continues(b: Byte) {
    0x80 <= b < 0xC0
  }

  /** A code point, unless it is too small for its number of octets or is no scalar value. */
  function Scalar(n: int, least: nat): Option<char> {
    if least <= n < 0xD800 || (least <= n && 0xE000 <= n < 0x11_0000) then Some(n as char) else None
  }

  function Two(a: int, b: int): int { (a - 0xC0) * 64 + b - 0x80 }
  function Three(a: int, b: int, c: int): int { (a - 0xE0) * 4096 + (b - 0x80) * 64 + c - 0x80 }
  function Four(a: int, b: int, c: int, d: int): int {
    (a - 0xF0) * 262144 + (b - 0x80) * 4096 + (c - 0x80) * 64 + d - 0x80
  }

  /** The first character and the number of octets that it takes. */
  function First(b: seq<Byte>): Option<(char, nat)>
    requires b != []
  {
    if b[0] < 0x80 then Some((b[0] as char, 1))
    else if 0xC0 <= b[0] < 0xE0 && |b| >= 2 && Continues(b[1]) then
      Sized(Scalar(Two(b[0], b[1]), 0x80), 2)
    else if 0xE0 <= b[0] < 0xF0 && |b| >= 3 && Continues(b[1]) && Continues(b[2]) then
      Sized(Scalar(Three(b[0], b[1], b[2]), 0x800), 3)
    else if 0xF0 <= b[0] < 0xF8 && |b| >= 4 && Continues(b[1]) && Continues(b[2]) && Continues(b[3]) then
      Sized(Scalar(Four(b[0], b[1], b[2], b[3]), 0x1_0000), 4)
    else None
  }

  function Sized(c: Option<char>, size: nat): Option<(char, nat)> {
    if c.Some? then Some((c.value, size)) else None
  }

  function Decode(b: seq<Byte>): Option<string> {
    if b == [] then Some("")
    else
      var first := First(b);
      if first.None? || !(0 < first.value.1 <= |b|) then None
      else
        var rest := Decode(b[first.value.1..]);
        if rest.Some? then Some([first.value.0] + rest.value) else None
  }

  lemma Rejoin(n: nat)
    ensures n < 0x800 ==> Two(0xC0 + n / 64, 0x80 + n % 64) == n
    ensures n < 0x1_0000 ==> Three(0xE0 + n / 4096, 0x80 + n / 64 % 64, 0x80 + n % 64) == n
    ensures n < 0x11_0000 ==> Four(0xF0 + n / 262144, 0x80 + n / 4096 % 64, 0x80 + n / 64 % 64, 0x80 + n % 64) == n
  {
    assert n / 4096 == n / 64 / 64 && n / 262144 == n / 4096 / 64;
    assert n / 64 == n / 4096 * 64 + n / 64 % 64;
    assert n / 4096 == n / 262144 * 64 + n / 4096 % 64;
  }

  lemma FirstOfOctet(c: char, rest: seq<Byte>)
    ensures First(Octet(c) + rest) == Some((c, |Octet(c)|))
  {
    hide Two, Three, Four;
    Rejoin(c as int);
  }

  lemma {:induction false} DecodeUndoesEncode(s: string)
    ensures Decode(Encode(s)) == Some(s)
  {
    if s != "" {
      DecodeUndoesEncode(s[1..]);
      DecodeStep(s[0], Encode(s[1..]));
      assert s == [s[0]] + s[1..];
    }
  }

  lemma DecodeStep(c: char, rest: seq<Byte>)
    requires Decode(rest).Some?
    ensures Decode(Octet(c) + rest) == Some([c] + Decode(rest).value)
  {
    hide First, Octet;
    FirstOfOctet(c, rest);
    NotEmpty(c);
    assert (Octet(c) + rest)[|Octet(c)|..] == rest;
  }

  lemma NotEmpty(c: char)
    ensures Octet(c) != []
  {
  }

  lemma {:induction false} AtLeastOneEach(s: string)
    ensures |s| <= |Encode(s)|
  {
    hide Octet;
    if s != "" {
      AtLeastOneEach(s[1..]);
      NotEmpty(s[0]);
    }
  }

  /** The table of section 3 of RFC 3629: how many octets, their ranges, and the bits that they carry. */
  lemma OctetsOfTheTable(c: char)
    ensures var n, o: seq<int> := c as int, Encode([c]);
      && (n <= 0x7F ==> o == [n])
      && (0x80 <= n <= 0x7FF ==>
          |o| == 2 && 0xC2 <= o[0] <= 0xDF && (o[0] - 0xC0) * 0x40 + (o[1] - 0x80) == n)
      && (0x800 <= n <= 0xFFFF ==>
          |o| == 3 && 0xE0 <= o[0] <= 0xEF && (o[0] - 0xE0) * 0x1000 + (o[1] - 0x80) * 0x40 + (o[2] - 0x80) == n)
      && (0x1_0000 <= n ==>
          |o| == 4 && 0xF0 <= o[0] <= 0xF4
          && (o[0] - 0xF0) * 0x4_0000 + (o[1] - 0x80) * 0x1000 + (o[2] - 0x80) * 0x40 + (o[3] - 0x80) == n)
      && (forall k | 1 <= k < |o| :: 0x80 <= o[k] <= 0xBF)
  {
    var n := c as int;
    assert Encode([c]) == Octet(c) by {
      assert Encode([c]) == Octet(c) + [];
    }
    assert n / 4096 == n / 64 / 64 && n / 262144 == n / 4096 / 64;
    assert n / 64 == n / 4096 * 64 + n / 64 % 64;
    assert n / 4096 == n / 262144 * 64 + n / 4096 % 64;
  }

  lemma {:induction false} EncodeJoins(s: string, t: string)
    ensures Encode(s + t) == Encode(s) + Encode(t)
  {
    hide Octet;
    if s == "" {
      assert s + t == t;
    } else {
      assert (s + t)[1..] == s[1..] + t;
      EncodeJoins(s[1..], t);
    }
  }
}
