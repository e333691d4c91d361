/**
 * The order-id generator: a caller-given prefix followed by the upper-case
 * hexadecimal rendering of 10 random bytes, cut to 20 characters.
 * The random bytes are a parameter; drawing them is outside the model.
 */
module OrderIds {

  /** One byte as produced by the random source. */
  type Byte = b: int | 0 <= b < 256

  const RandomByteCount: nat := 10
  const OrderIdLength: nat := 20
  /** The prefix the intake handler passes to the generator. */
  const OrderPrefix: string := "SSON"

  predicate IsUpperHexDigit(c: char) {
    '0' <= c <= '9' || 'A' <= c <= 'F'
  }

  /** The upper-case hexadecimal digit for a nibble. */
  function HexDigit(n: nat): (c: char)
    requires n < 16
    ensures IsUpperHexDigit(c)
  {
    if n < 10 then (48 + n) as char else (55 + n) as char
  }

  /** The nibble an upper-case hexadecimal digit stands for. */
  function DigitValue(c: char): (n: nat)
    requires IsUpperHexDigit(c)
    ensures n < 16 && HexDigit(n) == c
  {
    if c <= '9' then c as int - 48 else c as int - 55
  }

  lemma DigitValueOfHexDigit(n: nat)
    requires n < 16
    ensures DigitValue(HexDigit(n)) == n
  {
  }

  /** `toString('hex').toUpperCase()`: two digits per byte, high nibble first. */
  function ToHexUpper(bytes: seq<Byte>): (s: string)
    ensures |s| == 2 * |bytes|
    ensures forall i :: 0 <= i < |s| ==> IsUpperHexDigit(s[i])
  {
    if bytes == [] then []
    else [HexDigit(bytes[0] / 16), HexDigit(bytes[0] % 16)] + ToHexUpper(bytes[1..])
  }

  /** Reads a string of upper-case hexadecimal digit pairs back into bytes. */
  function ParseHex(s: string): (bytes: seq<Byte>)
    requires |s| % 2 == 0
    requires forall i :: 0 <= i < |s| ==> IsUpperHexDigit(s[i])
    ensures |bytes| == |s| / 2
  {
    if s == [] then []
    else [(DigitValue(s[0]) * 16 + DigitValue(s[1])) as Byte] + ParseHex(s[2..])
  }

  /** The hexadecimal rendering loses nothing: parsing it gives the bytes back. */
  lemma {:induction false} ParseHexInvertsToHexUpper(bytes: seq<Byte>)
    ensures ParseHex(ToHexUpper(bytes)) == bytes
  {
    if bytes != [] {
      var s := ToHexUpper(bytes);
      assert s[2..] == ToHexUpper(bytes[1..]);
      ParseHexInvertsToHexUpper(bytes[1..]);
      DigitValueOfHexDigit(bytes[0] / 16);
      DigitValueOfHexDigit(bytes[0] % 16);
    }
  }

  /** The first 2k digits of the rendering are the rendering of the first k bytes. */
  lemma {:induction false} ToHexUpperPrefix(bytes: seq<Byte>, k: nat)
    requires k <= |bytes|
    ensures ToHexUpper(bytes)[..2 * k] == ToHexUpper(bytes[..k])
  {
    if k > 0 {
      ToHexUpperPrefix(bytes[1..], k - 1);
      assert bytes[..k][1..] == bytes[1..][..k - 1];
    } else {
      assert bytes[..k] == [];
    }
  }

  /** generateOrderId: the prefix and the hexadecimal rendering, sliced to 20 characters. */
  function GenerateOrderId(prefix: string, random: seq<Byte>): (id: string)
    requires |random| == RandomByteCount
    ensures |id| == OrderIdLength
  {
    (prefix + ToHexUpper(random))[..OrderIdLength]
  }

  /**
   * Layout of a generated id: a prefix of at most 20 characters is kept whole and
   * followed by the first 20 - |prefix| hexadecimal digits; a longer prefix is
   * truncated and the random bytes do not show at all.
   */
  lemma OrderIdLayout(prefix: string, random: seq<Byte>)
    requires |random| == RandomByteCount
    ensures var id := GenerateOrderId(prefix, random);
      |prefix| <= OrderIdLength ==>
        && id[..|prefix|] == prefix
        && id[|prefix|..] == ToHexUpper(random)[..OrderIdLength - |prefix|]
        && forall i :: |prefix| <= i < OrderIdLength ==> IsUpperHexDigit(id[i])
    ensures |prefix| > OrderIdLength ==> GenerateOrderId(prefix, random) == prefix[..OrderIdLength]
  {
    var hex := ToHexUpper(random);
    var id := GenerateOrderId(prefix, random);
    if |prefix| <= OrderIdLength {
      forall i | |prefix| <= i < OrderIdLength
        ensures IsUpperHexDigit(id[i])
      {
        assert id[i] == hex[i - |prefix|];
      }
    }
  }

  /**
   * For a prefix of even length p <= 20, two generated ids are equal exactly when
   * the first (20 - p) / 2 random bytes agree: the remaining bytes are discarded.
   */
  lemma OrderIdDeterminedByLeadingBytes(prefix: string, r1: seq<Byte>, r2: seq<Byte>)
    requires |r1| == RandomByteCount && |r2| == RandomByteCount
    requires |prefix| <= OrderIdLength && |prefix| % 2 == 0
    ensures var k := (OrderIdLength - |prefix|) / 2;
      GenerateOrderId(prefix, r1) == GenerateOrderId(prefix, r2) <==> r1[..k] == r2[..k]
  {
    var k := (OrderIdLength - |prefix|) / 2;
    var id1, id2 := GenerateOrderId(prefix, r1), GenerateOrderId(prefix, r2);
    ToHexUpperPrefix(r1, k);
    ToHexUpperPrefix(r2, k);
    assert id1 == prefix + ToHexUpper(r1[..k]);
    assert id2 == prefix + ToHexUpper(r2[..k]);
    if id1 == id2 {
      assert ToHexUpper(r1[..k]) == id1[|prefix|..];
      assert ToHexUpper(r2[..k]) == id2[|prefix|..];
      ParseHexInvertsToHexUpper(r1[..k]);
      ParseHexInvertsToHexUpper(r2[..k]);
    }
  }

  /** With the "SSON" prefix an id carries 16 hex digits: only 8 of the 10 random bytes count. */
  lemma SsonOrderIdUsesEightBytes(r1: seq<Byte>, r2: seq<Byte>)
    requires |r1| == RandomByteCount && |r2| == RandomByteCount
    ensures GenerateOrderId(OrderPrefix, r1)[..4] == OrderPrefix
    ensures GenerateOrderId(OrderPrefix, r1) == GenerateOrderId(OrderPrefix, r2) <==> r1[..8] == r2[..8]
  {
    OrderIdLayout(OrderPrefix, r1);
    OrderIdDeterminedByLeadingBytes(OrderPrefix, r1, r2);
  }
}
