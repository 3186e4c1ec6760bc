/** Integers of a JSON Web Key: big-endian octets in unpadded base64url. */
module JwksInteger {
  import opened Base64
  import opened Wrappers

  function BitLength(n: nat): nat {
    if n == 0 then 0 else 1 + BitLength(n / 2)
  }

  // math.ceil of the exact quotient.
  function ByteLength(n: nat): nat {
    (BitLength(n) + 7) / 8
  }

  /** Python's int.to_bytes(length, 'big'), which raises OverflowError when the value does not fit. */
  function ToBytes(n: nat, length: nat): Option<seq<Byte>> {
    if length == 0 then (if n == 0 then Some([]) else None)
    else
      var high := ToBytes(n / 256, length - 1);
      if high.Some? then Some(high.value + [n % 256]) else None
  }

  function FromBytes(bytes: seq<Byte>): nat {
    if bytes == [] then 0 else FromBytes(bytes[..|bytes| - 1]) * 256 + bytes[|bytes| - 1]
  }

  function IntToBase64Url(n: nat): Option<string> {
    var bytes := ToBytes(n, ByteLength(n));
    if bytes.Some? then Some(StripPadding(Encode(UrlSafe, bytes.value))) else None
  }

  /** The shortest big-endian octet string of a positive number. */
  function MinimalOctets(n: nat): seq<Byte> {
    if n == 0 then [] else MinimalOctets(n / 256) + [n % 256]
  }

  /** Base64urlUInt of section 2 of RFC 7518, which represents zero by one zero octet. */
  function Base64UrlUInt(n: nat): string {
    StripPadding(Encode(UrlSafe, if n == 0 then [0] else MinimalOctets(n)))
  }

  lemma ByteLengthStep(n: nat)
    requires n > 0
    ensures ByteLength(n) == ByteLength(n / 256) + 1
  {
    if n >= 256 {
      EightBits(n);
    } else {
      SmallBits(n);
    }
  }

  lemma EightBits(n: nat)
    requires n >= 256
    ensures BitLength(n) == BitLength(n / 256) + 8
  {
    assert BitLength(n) == BitLength(n / 4) + 2 by { assert n / 2 / 2 == n / 4; }
    assert BitLength(n / 4) == BitLength(n / 16) + 2 by { assert n / 4 / 2 / 2 == n / 16; }
    assert BitLength(n / 16) == BitLength(n / 64) + 2 by { assert n / 16 / 2 / 2 == n / 64; }
    assert BitLength(n / 64) == BitLength(n / 256) + 2 by { assert n / 64 / 2 / 2 == n / 256; }
  }

  lemma SmallBits(n: nat)
    requires 0 < n < 256
    ensures 1 <= BitLength(n) <= 8
  {
    assert Power(8) == 256;
    BitsBelow(n, 8);
  }

  lemma {:induction false} BitsBelow(n: nat, k: nat)
    requires n < Power(k)
    ensures BitLength(n) <= k
    decreases k
  {
    if n > 0 {
      BitsBelow(n / 2, k - 1);
    }
  }

  function Power(k: nat): nat {
    if k == 0 then 1 else 2 * Power(k - 1)
  }

  /** The computed length is exactly right: the octets fit, and none is wasted. */
  lemma {:induction false} BytesAreMinimal(n: nat)
    ensures ToBytes(n, ByteLength(n)) == Some(MinimalOctets(n))
  {
    if n > 0 {
      ByteLengthStep(n);
      BytesAreMinimal(n / 256);
    }
  }

  lemma {:induction false} MinimalOctetsFacts(n: nat)
    ensures FromBytes(MinimalOctets(n)) == n
    ensures n > 0 ==> MinimalOctets(n) != [] && MinimalOctets(n)[0] != 0
  {
    if n > 0 {
      MinimalOctetsFacts(n / 256);
      assert MinimalOctets(n)[..|MinimalOctets(n)| - 1] == MinimalOctets(n / 256);
    }
  }

  function DecodeInt(text: string): Option<nat> {
    var bytes := Decode(UrlSafe, text);
    if bytes.Some? then Some(FromBytes(bytes.value)) else None
  }

  /** Encoding never raises, and decoding gives the integer back, zero included. */
  lemma IntRoundTrip(n: nat)
    ensures IntToBase64Url(n).Some? && DecodeInt(IntToBase64Url(n).value) == Some(n)
  {
    BytesAreMinimal(n);
    MinimalOctetsFacts(n);
    DecodeUndoesEncode(UrlSafe, MinimalOctets(n));
  }

  lemma IntEncodingInjective(m: nat, n: nat)
    ensures IntToBase64Url(m) == IntToBase64Url(n) <==> m == n
  {
    IntRoundTrip(m);
    IntRoundTrip(n);
  }

  predicate UrlSafeSymbol(c: char) {
    'A' <= c <= 'Z' || 'a' <= c <= 'z' || '0' <= c <= '9' || c == '-' || c == '_'
  }

  /** The text uses the URL-safe alphabet alone, without padding, at four symbols per three octets. */
  lemma IntTextShape(n: nat)
    ensures IntToBase64Url(n).Some?
    ensures var text := IntToBase64Url(n).value;
      && (forall i | 0 <= i < |text| :: UrlSafeSymbol(text[i]))
      && |text| == (4 * ByteLength(n) + 2) / 3
  {
    BytesAreMinimal(n);
    StripEncoded(UrlSafe, MinimalOctets(n));
    LengthOfBytes(n, ByteLength(n));
  }

  lemma {:induction false} LengthOfBytes(n: nat, length: nat)
    ensures ToBytes(n, length).Some? ==> |ToBytes(n, length).value| == length
    decreases length
  {
    if length > 0 {
      LengthOfBytes(n / 256, length - 1);
    }
  }

  /** The method computes Base64urlUInt for every positive integer; zero, which has no octets here, it does not. */
  lemma ConformsExactlyWhenPositive(n: nat)
    ensures IntToBase64Url(n) == Some(Base64UrlUInt(n)) <==> n > 0
  {
    BytesAreMinimal(n);
    if n == 0 {
      StripEncoded(UrlSafe, []);
      StripEncoded(UrlSafe, [0]);
      assert |Symbols(UrlSafe, Sextets([0]))| == 2;
    }
  }

  /** The usual public exponent, 65537, is written AQAB. */
  lemma PublicExponent()
    ensures IntToBase64Url(65537) == Some("AQAB")
    ensures IntToBase64Url(0) == Some("")
  {
    BytesAreMinimal(65537);
    BytesAreMinimal(0);
    hide ToBytes, ByteLength, Base64.Encode, Base64.StripPadding;
    assert MinimalOctets(65537) == [1, 0, 1];
    ExponentOctets();
  }

  lemma ExponentOctets()
    ensures StripPadding(Encode(UrlSafe, [1, 0, 1])) == "AQAB"
    ensures StripPadding(Encode(UrlSafe, [])) == ""
  {
    assert Encode(UrlSafe, [1, 0, 1]) == "AQAB" + Encode(UrlSafe, []);
  }
}
