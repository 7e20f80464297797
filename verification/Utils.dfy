/** The key codec of the client (`client/src/lib/utils.ts`): raw key bytes are
    shown to the user as base16 text and read back from it. */
module Utils {
  import opened JsBuiltins

  /** The number of bytes in a client key. */
  const KeyBytes: nat := 16

  // ---------------------------------------------------------------------
  // generateRandomKey

  /** `generateRandomKey()`: a fresh `Uint8Array(16)` filled in place by the
      platform's secure random source, returned as an array of numbers. The
      random source is the parameter `entropy`: its i-th draw fills slot i. */
  method GenerateRandomKey(entropy: nat -> Byte) returns (key: seq<Byte>)
    ensures |key| == KeyBytes
    ensures forall i :: 0 <= i < KeyBytes ==> key[i] == entropy(i)
  {
    var buffer := new Byte[KeyBytes];
    var i := 0;
    while i < KeyBytes
      invariant 0 <= i <= KeyBytes
      invariant forall j :: 0 <= j < i ==> buffer[j] == entropy(j)
    {
      buffer[i] := entropy(i);
      i := i + 1;
    }
    key := buffer[..];
  }

  // ---------------------------------------------------------------------
  // bytesToHex

  /** One byte as two lower-case hexadecimal digits, high nibble first. */
  function ByteToHex(b: Byte): (r: string)
    ensures |r| == 2
    ensures IsHexDigit(r[0]) && IsHexDigit(r[1])
    ensures 16 * DigitValue(r[0]) + DigitValue(r[1]) == b
    ensures !('A' <= r[0] <= 'Z') && !('A' <= r[1] <= 'Z')
  {
    DigitValueOfChar(b / 16);
    DigitValueOfChar(b % 16);
    [DigitChar(b / 16), DigitChar(b % 16)]
  }

  /** `byte.toString(16).padStart(2, '0')` is `ByteToHex(byte)`: the single
      digit of a byte below 16 gets one leading zero, a larger byte already
      has two digits. */
  lemma ByteToHexIsPaddedToString(b: Byte)
    ensures PadStart(ToRadixString(b, 16), 2, '0') == ByteToHex(b)
  {
    var digits := ToRadixString(b, 16);
    if b < 16 {
      assert digits == [DigitChar(b)];
      assert PadStart(digits, 2, '0') == ['0'] + digits;
    } else {
      assert ToRadixString(b / 16, 16) == [DigitChar(b / 16)];
      assert digits == [DigitChar(b / 16), DigitChar(b % 16)];
    }
  }

  /** `bytesToHex(bytes)`: the two-digit forms of the bytes, in order, joined. */
  function BytesToHex(bytes: seq<Byte>): (r: string)
    ensures |r| == 2 * |bytes|
  {
    if bytes == [] then "" else ByteToHex(bytes[0]) + BytesToHex(bytes[1..])
  }

  /** Characters 2i and 2i+1 of `bytesToHex(bytes)` are the high and the low
      nibble of byte i, as lower-case hexadecimal digits. */
  lemma {:induction false} BytesToHexAt(bytes: seq<Byte>, i: nat)
    requires i < |bytes|
    ensures BytesToHex(bytes)[2 * i] == DigitChar(bytes[i] / 16)
    ensures BytesToHex(bytes)[2 * i + 1] == DigitChar(bytes[i] % 16)
  {
    var head, rest := ByteToHex(bytes[0]), BytesToHex(bytes[1..]);
    assert BytesToHex(bytes) == head + rest;
    if i > 0 {
      BytesToHexAt(bytes[1..], i - 1);
      var j := 2 * (i - 1);
      assert rest[j] == DigitChar(bytes[i] / 16) && rest[j + 1] == DigitChar(bytes[i] % 16);
      assert (head + rest)[j + 2] == rest[j] && (head + rest)[j + 3] == rest[j + 1];
    }
  }

  /** Every character of `bytesToHex` output is a lower-case hexadecimal digit. */
  lemma BytesToHexDigits(bytes: seq<Byte>)
    ensures forall j :: 0 <= j < |BytesToHex(bytes)| ==> IsHexDigit(BytesToHex(bytes)[j]) && !('A' <= BytesToHex(bytes)[j] <= 'Z')
  {
    forall j | 0 <= j < |BytesToHex(bytes)|
      ensures IsHexDigit(BytesToHex(bytes)[j]) && !('A' <= BytesToHex(bytes)[j] <= 'Z')
    {
      BytesToHexAt(bytes, j / 2);
      DigitValueOfChar(bytes[j / 2] / 16);
      DigitValueOfChar(bytes[j / 2] % 16);
    }
  }

  // ---------------------------------------------------------------------
  // hexToBytes

  /** `s.substr(start, length)` for a start inside the string. */
  function Substr(s: string, start: nat, length: nat): (r: string)
    requires start <= |s|
    ensures |r| == if start + length <= |s| then length else |s| - start
    ensures r == s[start..start + |r|]
  {
    if start + length <= |s| then s[start..start + length] else s[start..]
  }

  lemma SubstrPair(s: string, i: nat)
    requires i + 2 <= |s|
    ensures Substr(s, i, 2) == [s[i], s[i + 1]]
  {
  }

  /** What `hexToBytes(hex)` returns: entry k is `parseInt` of the two
      characters at 2k (or the one character left over at the end when the
      length is odd), so there are ceil(|hex| / 2) entries. */
  function DecodeHex(hex: string): (r: seq<Number>)
    ensures |r| == (|hex| + 1) / 2
    ensures hex == "" ==> r == []
  {
    seq((|hex| + 1) / 2, k requires 0 <= k < (|hex| + 1) / 2 => ParseIntHex(Substr(hex, 2 * k, 2)))
  }

  /** `hexToBytes(hex)`: a loop over the string two characters at a time,
      pushing the parsed pair onto a growing array. */
  method HexToBytes(hex: string) returns (bytes: seq<Number>)
    ensures bytes == DecodeHex(hex)
  {
    bytes := [];
    var i := 0;
    while i < |hex|
      invariant i == 2 * |bytes| && i <= |hex| + 1
      invariant bytes == DecodeHex(hex)[..|bytes|]
    {
      DecodeHexStep(hex, bytes);
      bytes := bytes + [ParseIntHex(Substr(hex, i, 2))];
      i := i + 2;
    }
    assert |bytes| == |DecodeHex(hex)|;
  }

  /** One more iteration of the loop extends the decoded prefix by one entry. */
  lemma DecodeHexStep(hex: string, done: seq<Number>)
    requires 2 * |done| < |hex|
    requires done == DecodeHex(hex)[..|done|]
    ensures done + [ParseIntHex(Substr(hex, 2 * |done|, 2))] == DecodeHex(hex)[..|done| + 1]
  {
    var all := DecodeHex(hex);
    assert all[..|done| + 1] == all[..|done|] + [all[|done|]];
  }

  // ---------------------------------------------------------------------
  // Round trips

  /** The bytes as the numbers `parseInt` would return for them. */
  function AsNumbers(bytes: seq<Byte>): (r: seq<Number>)
    ensures |r| == |bytes|
    ensures forall i :: 0 <= i < |bytes| ==> r[i] == Num(bytes[i])
  {
    seq(|bytes|, i requires 0 <= i < |bytes| => Num(bytes[i]))
  }

  /** The two digits of a byte are hexadecimal digits whose values spell it. */
  lemma NibbleDigits(b: Byte)
    ensures IsHexDigit(DigitChar(b / 16)) && IsHexDigit(DigitChar(b % 16))
    ensures 16 * DigitValue(DigitChar(b / 16)) + DigitValue(DigitChar(b % 16)) == b
  {
    DigitValueOfChar(b / 16);
    DigitValueOfChar(b % 16);
  }

  /** `parseInt` reads a byte back from its two-digit form. */
  lemma ParseByteToHex(b: Byte)
    ensures ParseIntHex(ByteToHex(b)) == Num(b)
  {
    NibbleDigits(b);
    var pair := ByteToHex(b);
    ParseTwoHexDigits(pair[0], pair[1], b);
    assert pair == [pair[0], pair[1]];
  }

  /** The pair at 2k of `bytesToHex(bytes)` is the two-digit form of byte k. */
  lemma EncodedPair(bytes: seq<Byte>, k: nat)
    requires k < |bytes|
    ensures Substr(BytesToHex(bytes), 2 * k, 2) == ByteToHex(bytes[k])
  {
    var h := BytesToHex(bytes);
    BytesToHexAt(bytes, k);
    SubstrPair(h, 2 * k);
    assert ByteToHex(bytes[k]) == [h[2 * k], h[2 * k + 1]];
  }

  /** Decoding what `bytesToHex` wrote gives back exactly the bytes. */
  lemma DecodeOfEncode(bytes: seq<Byte>)
    ensures DecodeHex(BytesToHex(bytes)) == AsNumbers(bytes)
  {
    forall k | 0 <= k < |bytes|
      ensures DecodeHex(BytesToHex(bytes))[k] == Num(bytes[k])
    {
      EncodedPair(bytes, k);
      ParseByteToHex(bytes[k]);
    }
  }

  /** The lower-case form of a hexadecimal digit string. */
  function LowerHex(h: string): (r: string)
    requires forall i :: 0 <= i < |h| ==> IsHexDigit(h[i])
    ensures |r| == |h|
    ensures forall i :: 0 <= i < |h| ==> IsHexDigit(r[i]) && DigitValue(r[i]) == DigitValue(h[i]) && !('A' <= r[i] <= 'Z')
    ensures forall i :: 0 <= i < |h| ==> !('A' <= h[i] <= 'Z') ==> r[i] == h[i]
  {
    seq(|h|, i requires 0 <= i < |h| => LowerDigit(h[i]))
  }

  /** One hexadecimal digit in lower case. */
  function LowerDigit(c: char): (d: char)
    requires IsHexDigit(c)
    ensures IsHexDigit(d) && DigitValue(d) == DigitValue(c) && !('A' <= d <= 'Z')
    ensures !('A' <= c <= 'Z') ==> d == c
  {
    DigitValueOfChar(DigitValue(c));
    DigitChar(DigitValue(c))
  }

  /** The byte two hexadecimal digits spell, high digit first. */
  function PairValue(hi: char, lo: char): (b: Byte)
    requires IsHexDigit(hi) && IsHexDigit(lo)
    ensures b / 16 == DigitValue(hi) && b % 16 == DigitValue(lo)
  {
    16 * DigitValue(hi) + DigitValue(lo)
  }

  /** Reference decoding of an even-length digit string: pair k is the byte
      16 * value(h[2k]) + value(h[2k+1]). */
  function HexPairs(h: string): (r: seq<Byte>)
    requires |h| % 2 == 0
    requires forall i :: 0 <= i < |h| ==> IsHexDigit(h[i])
    ensures |r| == |h| / 2
  {
    seq(|h| / 2, k requires 0 <= k < |h| / 2 => PairValue(h[2 * k], h[2 * k + 1]))
  }

  /** On an even-length string of hexadecimal digits of either case,
      `hexToBytes` is the reference pairwise decoding, and encoding the result
      again gives the string in lower case. */
  lemma EncodeOfDecode(h: string)
    requires |h| % 2 == 0
    requires forall i :: 0 <= i < |h| ==> IsHexDigit(h[i])
    ensures DecodeHex(h) == AsNumbers(HexPairs(h))
    ensures BytesToHex(HexPairs(h)) == LowerHex(h)
  {
    forall k | 0 <= k < |h| / 2
      ensures DecodeHex(h)[k] == Num(HexPairs(h)[k])
    {
      ParseDigitPair(h, k);
    }
    forall j | 0 <= j < |h|
      ensures BytesToHex(HexPairs(h))[j] == LowerHex(h)[j]
    {
      EncodedDigit(h, j);
    }
  }

  lemma ParseDigitPair(h: string, k: nat)
    requires |h| % 2 == 0 && k < |h| / 2
    requires forall i :: 0 <= i < |h| ==> IsHexDigit(h[i])
    ensures DecodeHex(h)[k] == Num(HexPairs(h)[k])
  {
    var v := PairValue(h[2 * k], h[2 * k + 1]);
    assert HexPairs(h)[k] == v;
    SubstrPair(h, 2 * k);
    ParseTwoHexDigits(h[2 * k], h[2 * k + 1], v);
    assert DecodeHex(h)[k] == ParseIntHex(Substr(h, 2 * k, 2));
  }

  lemma EncodedDigit(h: string, j: nat)
    requires |h| % 2 == 0 && j < |h|
    requires forall i :: 0 <= i < |h| ==> IsHexDigit(h[i])
    ensures BytesToHex(HexPairs(h))[j] == DigitChar(DigitValue(h[j]))
  {
    var bytes := HexPairs(h);
    var k := j / 2;
    BytesToHexAt(bytes, k);
    assert bytes[k] == PairValue(h[2 * k], h[2 * k + 1]);
    assert j == 2 * k || j == 2 * k + 1;
  }
}
