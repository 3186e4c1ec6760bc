/** Base64 as in sections 4 and 5 of RFC 4648: the two alphabets, padding, and an unpadded decoder. */
module Base64 {
  import opened Wrappers

  type Byte = b: int | 0 <= b < 256
  type Sextet = v: int | 0 <= v < 64

  datatype Alphabet = Standard | UrlSafe

  function Symbol(alphabet: Alphabet, v: Sextet): char {
    if v < 26 then 'A' + v as char
    else if v < 52 then 'a' + (v - 26) as char
    else if v < 62 then '0' + (v - 52) as char
    else if v == 62 then (if alphabet.UrlSafe? then '-' else '+')
    else if alphabet.UrlSafe? then '_' else '/'
  }

  function ValueOf(alphabet: Alphabet, c: char): Option<Sextet> {
    if 'A' <= c <= 'Z' then Some((c - 'A') as int)
    else if 'a' <= c <= 'z' then Some((c - 'a') as int + 26)
    else if '0' <= c <= '9' then Some((c - '0') as int + 52)
    else if c == (if alphabet.UrlSafe? then '-' else '+') then Some(62)
    else if c == (if alphabet.UrlSafe? then '_' else '/') then Some(63)
    else None
  }

  // Three octets spread over four sextets; a short last group is filled up with zero bits.
  function Sextet0(x: Byte): Sextet { x / 4 }
  function Sextet1(x: Byte, y: Byte): Sextet { x % 4 * 16 + y / 16 }
  function Sextet2(y: Byte, z: Byte): Sextet { y % 16 * 4 + z / 64 }
  function Sextet3(z: Byte): Sextet { z % 64 }

  /** Three octets become four symbols; a last group of one or two octets is padded. */
  function Encode(alphabet: Alphabet, bytes: seq<Byte>): string {
    if bytes == [] then ""
    else if |bytes| == 1 then
      [Symbol(alphabet, Sextet0(bytes[0])), Symbol(alphabet, Sextet1(bytes[0], 0)), '=', '=']
    else if |bytes| == 2 then
      [Symbol(alphabet, Sextet0(bytes[0])), Symbol(alphabet, Sextet1(bytes[0], bytes[1])),
       Symbol(alphabet, Sextet2(bytes[1], 0)), '=']
    else
      [Symbol(alphabet, Sextet0(bytes[0])), Symbol(alphabet, Sextet1(bytes[0], bytes[1])),
       Symbol(alphabet, Sextet2(bytes[1], bytes[2])), Symbol(alphabet, Sextet3(bytes[2]))]
      + Encode(alphabet, bytes[3..])
  }

  /** Python's rstrip('='). */
  function StripPadding(text: string): string {
    if text != "" && text[|text| - 1] == '=' then StripPadding(text[..|text| - 1]) else text
  }

  function Values(alphabet: Alphabet, text: string): Option<seq<Sextet>> {
    if text == "" then Some([])
    else
      var first, rest := ValueOf(alphabet, text[0]), Values(alphabet, text[1..]);
      if first.Some? && rest.Some? then Some([first.value] + rest.value) else None
  }

  // The three octets spread over four sextets.
  function Octet0(a: int, b: int): int { a * 4 + b / 16 }
  function Octet1(b: int, c: int): int { b % 16 * 16 + c / 4 }
  function Octet2(c: int, d: int): int { c % 4 * 64 + d }

  /** The octets of a list of sextets; a single left-over sextet carries no octet and is an error. */
  function Octets(values: seq<Sextet>): Option<seq<Byte>> {
    if values == [] then Some([])
    else if |values| == 1 then None
    else if |values| == 2 then Some([Octet0(values[0], values[1])])
    else if |values| == 3 then Some([Octet0(values[0], values[1]), Octet1(values[1], values[2])])
    else
      var rest := Octets(values[4..]);
      if rest.None? then None
      else
        Some([Octet0(values[0], values[1]), Octet1(values[1], values[2]), Octet2(values[2], values[3])] + rest.value)
  }

  /** Decoding of unpadded text. */
  function Decode(alphabet: Alphabet, text: string): Option<seq<Byte>> {
    var values := Values(alphabet, text);
    if values.Some? then Octets(values.value) else None
  }

  lemma SymbolValue(alphabet: Alphabet, v: Sextet)
    ensures ValueOf(alphabet, Symbol(alphabet, v)) == Some(v)
  {
  }

  /** The sextets of an octet string. */
  function Sextets(bytes: seq<Byte>): (r: seq<Sextet>)
    ensures |r| == (4 * |bytes| + 2) / 3
  {
    if bytes == [] then []
    else if |bytes| == 1 then [Sextet0(bytes[0]), Sextet1(bytes[0], 0)]
    else if |bytes| == 2 then [Sextet0(bytes[0]), Sextet1(bytes[0], bytes[1]), Sextet2(bytes[1], 0)]
    else
      [Sextet0(bytes[0]), Sextet1(bytes[0], bytes[1]), Sextet2(bytes[1], bytes[2]), Sextet3(bytes[2])]
      + Sextets(bytes[3..])
  }

  function Symbols(alphabet: Alphabet, values: seq<Sextet>): string {
    seq(|values|, i requires 0 <= i < |values| => Symbol(alphabet, values[i]))
  }

  function Padding(n: nat): string {
    if n % 3 == 1 then "==" else if n % 3 == 2 then "=" else ""
  }

  lemma SymbolsJoin(alphabet: Alphabet, a: seq<Sextet>, b: seq<Sextet>)
    ensures Symbols(alphabet, a + b) == Symbols(alphabet, a) + Symbols(alphabet, b)
  {
  }

  lemma EncodeGroup(alphabet: Alphabet, bytes: seq<Byte>)
    requires |bytes| >= 3
    ensures Encode(alphabet, bytes) == Symbols(alphabet, Sextets(bytes)[..4]) + Encode(alphabet, bytes[3..])
    ensures Sextets(bytes) == Sextets(bytes)[..4] + Sextets(bytes[3..])
  {
    hide Symbol, Sextet0, Sextet1, Sextet2, Sextet3;
  }

  /** The encoding is the symbols of the sextets, padded to a multiple of four. */
  lemma {:induction false} EncodeIsSymbols(alphabet: Alphabet, bytes: seq<Byte>)
    ensures Encode(alphabet, bytes) == Symbols(alphabet, Sextets(bytes)) + Padding(|bytes|)
  {
    hide Symbol, Encode, Sextets;
    if |bytes| >= 3 {
      EncodeIsSymbols(alphabet, bytes[3..]);
      EncodeGroup(alphabet, bytes);
      SymbolsJoin(alphabet, Sextets(bytes)[..4], Sextets(bytes[3..]));
    } else {
      EncodeShort(alphabet, bytes);
    }
  }

  lemma EncodeShort(alphabet: Alphabet, bytes: seq<Byte>)
    requires |bytes| < 3
    ensures Encode(alphabet, bytes) == Symbols(alphabet, Sextets(bytes)) + Padding(|bytes|)
  {
    hide Symbol, Sextet0, Sextet1, Sextet2, Sextet3;
  }

  lemma StripEncoded(alphabet: Alphabet, bytes: seq<Byte>)
    ensures StripPadding(Encode(alphabet, bytes)) == Symbols(alphabet, Sextets(bytes))
  {
    EncodeIsSymbols(alphabet, bytes);
    var body, pad := Symbols(alphabet, Sextets(bytes)), Padding(|bytes|);
    NothingToStrip(alphabet, Sextets(bytes));
    if pad != "" {
      assert (body + pad)[..|body| + |pad| - 1] == body + pad[..|pad| - 1];
      if |pad| == 2 {
        assert pad[..1] == "=" && (body + "=")[..|body|] == body;
      } else {
        assert pad[..0] == "" && body + "" == body;
      }
    }
  }

  lemma NothingToStrip(alphabet: Alphabet, values: seq<Sextet>)
    ensures '=' !in Symbols(alphabet, values)
    ensures StripPadding(Symbols(alphabet, values)) == Symbols(alphabet, values)
  {
  }

  lemma {:induction false} ValuesOfSymbols(alphabet: Alphabet, values: seq<Sextet>)
    ensures Values(alphabet, Symbols(alphabet, values)) == Some(values)
  {
    if values != [] {
      SymbolValue(alphabet, values[0]);
      assert Symbols(alphabet, values)[1..] == Symbols(alphabet, values[1..]);
      ValuesOfSymbols(alphabet, values[1..]);
      assert values == [values[0]] + values[1..];
    }
  }

  lemma GroupRoundTrip(x: Byte, y: Byte, z: Byte)
    ensures Octet0(Sextet0(x), Sextet1(x, y)) == x
    ensures Octet1(Sextet1(x, y), Sextet2(y, z)) == y
    ensures Octet2(Sextet2(y, z), Sextet3(z)) == z
  {
    assert 0 <= y / 16 < 16 && (x % 4 * 16 + y / 16) / 16 == x % 4;
    assert (x % 4 * 16 + y / 16) % 16 == y / 16;
    assert 0 <= z / 64 < 4 && (y % 16 * 4 + z / 64) / 4 == y % 16;
    assert (y % 16 * 4 + z / 64) % 4 == z / 64;
  }

  lemma OctetsStep(a: Sextet, b: Sextet, c: Sextet, d: Sextet, rest: seq<Sextet>)
    ensures Octets(rest).Some? ==>
      Octets([a, b, c, d] + rest) == Some([Octet0(a, b), Octet1(b, c), Octet2(c, d)] + Octets(rest).value)
  {
    hide Octet0, Octet1, Octet2;
    assert ([a, b, c, d] + rest)[4..] == rest;
  }

  lemma SextetsStep(bytes: seq<Byte>)
    requires |bytes| >= 3
    ensures Sextets(bytes) ==
      [Sextet0(bytes[0]), Sextet1(bytes[0], bytes[1]), Sextet2(bytes[1], bytes[2]), Sextet3(bytes[2])]
      + Sextets(bytes[3..])
  {
    hide Sextet0, Sextet1, Sextet2, Sextet3;
  }

  lemma OctetsOfOne(x: Byte)
    ensures Octets(Sextets([x])) == Some([x])
  {
    hide Octet0, Octet1, Octet2, Sextet0, Sextet1, Sextet2, Sextet3;
    GroupRoundTrip(x, 0, 0);
    assert Sextets([x]) == [Sextet0(x), Sextet1(x, 0)];
  }

  lemma OctetsOfTwo(x: Byte, y: Byte)
    ensures Octets(Sextets([x, y])) == Some([x, y])
  {
    hide Octet0, Octet1, Octet2, Sextet0, Sextet1, Sextet2, Sextet3;
    GroupRoundTrip(x, y, 0);
    assert Sextets([x, y]) == [Sextet0(x), Sextet1(x, y), Sextet2(y, 0)];
  }

  lemma OctetsGroup(bytes: seq<Byte>)
    requires |bytes| >= 3 && Octets(Sextets(bytes[3..])) == Some(bytes[3..])
    ensures Octets(Sextets(bytes)) == Some(bytes)
  {
    hide Octets, Sextets, Octet0, Octet1, Octet2, Sextet0, Sextet1, Sextet2, Sextet3;
    var x, y, z := bytes[0], bytes[1], bytes[2];
    GroupRoundTrip(x, y, z);
    SextetsStep(bytes);
    OctetsStep(Sextet0(x), Sextet1(x, y), Sextet2(y, z), Sextet3(z), Sextets(bytes[3..]));
    assert bytes == [x, y, z] + bytes[3..];
  }

  lemma {:induction false} OctetsOfSextets(bytes: seq<Byte>)
    ensures Octets(Sextets(bytes)) == Some(bytes)
  {
    hide Octets, Sextets;
    if bytes == [] {
      OctetsOfNone();
    } else if |bytes| == 1 {
      OctetsOfOne(bytes[0]);
      assert bytes == [bytes[0]];
    } else if |bytes| == 2 {
      OctetsOfTwo(bytes[0], bytes[1]);
      assert bytes == [bytes[0], bytes[1]];
    } else {
      OctetsOfSextets(bytes[3..]);
      OctetsGroup(bytes);
    }
  }

  lemma OctetsOfNone()
    ensures Octets(Sextets([])) == Some([])
  {
  }

  /** Decoding what is left after stripping the padding gives the octets back, in both alphabets. */
  lemma DecodeUndoesEncode(alphabet: Alphabet, bytes: seq<Byte>)
    ensures Decode(alphabet, StripPadding(Encode(alphabet, bytes))) == Some(bytes)
  {
    StripEncoded(alphabet, bytes);
    ValuesOfSymbols(alphabet, Sextets(bytes));
    OctetsOfSextets(bytes);
  }

  /** The alphabets of tables 1 and 2 of RFC 4648. */
  lemma SymbolsOfTheTables(alphabet: Alphabet, v: Sextet)
    ensures v < 26 ==> Symbol(alphabet, v) == "ABCDEFGHIJKLMNOPQRSTUVWXYZ"[v]
    ensures 26 <= v < 52 ==> Symbol(alphabet, v) == "abcdefghijklmnopqrstuvwxyz"[v - 26]
    ensures 52 <= v < 62 ==> Symbol(alphabet, v) == "0123456789"[v - 52]
    ensures v == 62 ==> Symbol(Standard, v) == '+' && Symbol(UrlSafe, v) == '-'
    ensures v == 63 ==> Symbol(Standard, v) == '/' && Symbol(UrlSafe, v) == '_'
  {
  }

  /** The number that digits to a base denote, the most significant one first. */
  function Number(digits: seq<int>, base: nat): int {
    if digits == [] then 0 else Number(digits[..|digits| - 1], base) * base + digits[|digits| - 1]
  }

  /** Each group of three octets is one number of 24 bits, written as four digits to the base of 64; one octet over
      is such a number of 12 bits and two octets over one of 18 bits, with zero bits at the end. */
  lemma GroupsArePositional(alphabet: Alphabet, bytes: seq<Byte>) returns (d: seq<Sextet>)
    ensures |d| == 4
    ensures bytes == [] ==> Encode(alphabet, bytes) == ""
    ensures |bytes| == 1 ==>
      && Number(bytes, 0x100) * 0x10 == Number(d[..2], 64)
      && Encode(alphabet, bytes) == Symbols(alphabet, d[..2]) + "=="
    ensures |bytes| == 2 ==>
      && Number(bytes, 0x100) * 4 == Number(d[..3], 64)
      && Encode(alphabet, bytes) == Symbols(alphabet, d[..3]) + "="
    ensures |bytes| >= 3 ==>
      && Number(bytes[..3], 0x100) == Number(d, 64)
      && Encode(alphabet, bytes) == Symbols(alphabet, d) + Encode(alphabet, bytes[3..])
  {
    hide Symbol, Sextet0, Sextet1, Sextet2, Sextet3, Number;
    var x: Byte := if |bytes| > 0 then bytes[0] else 0;
    var y: Byte := if |bytes| > 1 then bytes[1] else 0;
    var z: Byte := if |bytes| > 2 then bytes[2] else 0;
    d := [Sextet0(x), Sextet1(x, y), Sextet2(y, z), Sextet3(z)];
    NumbersOfGroup(x, y, z);
    if |bytes| == 1 {
      assert bytes == [x] && d[..2] == [Sextet0(x), Sextet1(x, 0)];
    } else if |bytes| == 2 {
      assert bytes == [x, y] && d[..3] == [Sextet0(x), Sextet1(x, y), Sextet2(y, 0)];
    } else if |bytes| >= 3 {
      assert bytes[..3] == [x, y, z];
    }
  }

  lemma NumbersOfGroup(x: Byte, y: Byte, z: Byte)
    ensures Number([x], 0x100) * 0x10 == Number([Sextet0(x), Sextet1(x, 0)], 64)
    ensures Number([x, y], 0x100) * 4 == Number([Sextet0(x), Sextet1(x, y), Sextet2(y, 0)], 64)
    ensures Number([x, y, z], 0x100) == Number([Sextet0(x), Sextet1(x, y), Sextet2(y, z), Sextet3(z)], 64)
  {
    hide Number, Sextet0, Sextet1, Sextet2, Sextet3;
    NumberUpToFour(x, y, z, 0, 0x100);
    NumberUpToFour(Sextet0(x), Sextet1(x, 0), 0, 0, 64);
    NumberUpToFour(Sextet0(x), Sextet1(x, y), Sextet2(y, 0), 0, 64);
    NumberUpToFour(Sextet0(x), Sextet1(x, y), Sextet2(y, z), Sextet3(z), 64);
    SextetsOfGroup(x, 0, 0);
    SextetsOfGroup(x, y, 0);
    SextetsOfGroup(x, y, z);
  }

  lemma SextetsOfGroup(x: Byte, y: Byte, z: Byte)
    ensures Sextet0(x) * 0x4_0000 + Sextet1(x, y) * 0x1000 + Sextet2(y, z) * 0x40 + Sextet3(z)
         == x * 0x1_0000 + y * 0x100 + z
    ensures z == 0 ==> Sextet3(z) == 0
    ensures y == z == 0 ==> Sextet2(y, z) == 0
  {
    assert x == x / 4 * 4 + x % 4 && y == y / 16 * 16 + y % 16 && z == z / 64 * 64 + z % 64;
  }

  lemma NumberUpToFour(a: int, b: int, c: int, d: int, base: nat)
    ensures Number([a], base) == a
    ensures Number([a, b], base) == a * base + b
    ensures Number([a, b, c], base) == (a * base + b) * base + c
    ensures Number([a, b, c, d], base) == ((a * base + b) * base + c) * base + d
  {
    assert [a, b, c, d][..3] == [a, b, c] && [a, b, c][..2] == [a, b] && [a, b][..1] == [a];
  }

  /** The test vectors of section 10 of RFC 4648, in octets. */
  lemma TestVectors()
    ensures Encode(Standard, []) == ""
    ensures Encode(Standard, [0x66]) == "Zg=="
    ensures Encode(Standard, [0x66, 0x6F]) == "Zm8="
    ensures Encode(Standard, [0x66, 0x6F, 0x6F]) == "Zm9v"
    ensures Encode(Standard, [0x66, 0x6F, 0x6F, 0x62]) == "Zm9vYg=="
    ensures Encode(Standard, [0x66, 0x6F, 0x6F, 0x62, 0x61]) == "Zm9vYmE="
    ensures Encode(Standard, [0x66, 0x6F, 0x6F, 0x62, 0x61, 0x72]) == "Zm9vYmFy"
  {
    hide Encode;
    var none: seq<Byte> := [];
    AfterFoo(none);
    AfterFoo([0x62]);
    AfterFoo([0x62, 0x61]);
    AfterFoo([0x62, 0x61, 0x72]);
    OtherVectors();
    var foo: seq<Byte> := [0x66, 0x6F, 0x6F];
    assert foo + none == foo;
    assert foo + [0x62] == [0x66, 0x6F, 0x6F, 0x62];
    assert foo + [0x62, 0x61] == [0x66, 0x6F, 0x6F, 0x62, 0x61];
    assert foo + [0x62, 0x61, 0x72] == [0x66, 0x6F, 0x6F, 0x62, 0x61, 0x72];
  }

  lemma OtherVectors()
    ensures Encode(Standard, []) == ""
    ensures Encode(Standard, [0x66]) == "Zg=="
    ensures Encode(Standard, [0x66, 0x6F]) == "Zm8="
    ensures Encode(Standard, [0x62]) == "Yg=="
    ensures Encode(Standard, [0x62, 0x61]) == "YmE="
    ensures Encode(Standard, [0x62, 0x61, 0x72]) == "YmFy"
  {
  }

  lemma AfterFoo(rest: seq<Byte>)
    ensures Encode(Standard, [0x66, 0x6F, 0x6F] + rest) == "Zm9v" + Encode(Standard, rest)
  {
    assert ([0x66, 0x6F, 0x6F] + rest)[3..] == rest;
  }
}
