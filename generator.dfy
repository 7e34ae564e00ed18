/**
 * Random-string generation (src/shared/generator.js): `length` random bytes
 * are rendered in lowercase hexadecimal (Base16, section 8 of RFC 4648, with
 * the lowercase alphabet) and the rendering is cut to `length` characters.
 * The random source is not modelled: the bytes are an input.
 */
module Generator {

  newtype Byte = x: int | 0 <= x < 256

  const HexAlphabet: string := "0123456789abcdef"

  predicate IsHexChar(c: char) {
    '0' <= c <= '9' || 'a' <= c <= 'f'
  }

  predicate IsHexString(s: string) {
    forall i :: 0 <= i < |s| ==> IsHexChar(s[i])
  }

  /** Value of one lowercase hex digit. */
  function DigitValue(c: char): (n: int)
    requires IsHexChar(c)
    ensures 0 <= n < 16
  {
    if c <= '9' then c as int - '0' as int else c as int - 'a' as int + 10
  }

  /** The digit of a nibble; the inverse of DigitValue. */
  function HexDigit(n: int): (c: char)
    requires 0 <= n < 16
    ensures IsHexChar(c) && DigitValue(c) == n
  {
    HexAlphabet[n]
  }

  /** `Buffer.toString('hex')`: two digits per byte, high nibble first. */
  function HexEncode(bytes: seq<Byte>): (s: string)
    ensures |s| == 2 * |bytes|
    ensures IsHexString(s)
  {
    if bytes == [] then ""
    else [HexDigit(bytes[0] as int / 16), HexDigit(bytes[0] as int % 16)] + HexEncode(bytes[1..])
  }

  /** Reads a lowercase hex string back into bytes. */
  function HexDecode(s: string): (bytes: seq<Byte>)
    requires |s| % 2 == 0 && IsHexString(s)
    ensures 2 * |bytes| == |s|
  {
    if s == [] then []
    else [(DigitValue(s[0]) * 16 + DigitValue(s[1])) as Byte] + HexDecode(s[2..])
  }

  /** Decoding the hex rendering gives back the bytes. */
  lemma {:induction false} DecodeEncode(bytes: seq<Byte>)
    ensures HexDecode(HexEncode(bytes)) == bytes
  {
    if bytes != [] {
      var b := bytes[0] as int;
      var s := HexEncode(bytes);
      assert s[2..] == HexEncode(bytes[1..]);
      DecodeEncode(bytes[1..]);
      assert DigitValue(s[0]) * 16 + DigitValue(s[1]) == b / 16 * 16 + b % 16 == b;
    }
  }

  /** Character 2k is the high nibble of byte k, character 2k+1 its low nibble. */
  lemma {:induction false} HexEncodeAt(bytes: seq<Byte>, k: int)
    requires 0 <= k < |bytes|
    ensures HexEncode(bytes)[2 * k] == HexDigit(bytes[k] as int / 16)
    ensures HexEncode(bytes)[2 * k + 1] == HexDigit(bytes[k] as int % 16)
  {
    if k > 0 {
      HexEncodeAt(bytes[1..], k - 1);
      assert HexEncode(bytes)[2..] == HexEncode(bytes[1..]);
    }
  }

  /**
   * `crypto.randomBytes(length).toString('hex').substring(0, length)`;
   * `bytes` stands for the `length` bytes drawn from the random source.
   */
  function GenerateRandomString(bytes: seq<Byte>, length: nat): (s: string)
    requires |bytes| == length
    ensures |s| == length
    ensures IsHexString(s)
    ensures s <= HexEncode(bytes)
  {
    HexEncode(bytes)[..length]
  }

  /**
   * The result is fixed by the first half of the bytes: two byte sources that
   * agree on them give the same string, so only the bytes are random.
   */
  lemma GenerateUsesLeadingBytes(a: seq<Byte>, b: seq<Byte>, length: nat)
    requires |a| == |b| == length
    requires a[..(length + 1) / 2] == b[..(length + 1) / 2]
    ensures GenerateRandomString(a, length) == GenerateRandomString(b, length)
  {
    var sa, sb := GenerateRandomString(a, length), GenerateRandomString(b, length);
    forall i | 0 <= i < length
      ensures sa[i] == sb[i]
    {
      var k := i / 2;
      assert a[k] == a[..(length + 1) / 2][k] == b[..(length + 1) / 2][k] == b[k];
      HexEncodeAt(a, k);
      HexEncodeAt(b, k);
    }
  }
}
