/** Base-16 text encoding of byte strings: the lower-case encoder used when
    writing identifiers and the case-insensitive decoder used when reading
    them. */
module Hex {

  type byte = x: int | 0 <= x < 256

  const LowerDigits: string := "0123456789abcdef"

  /** The lower-case digit for a nibble. */
  function LowerDigit(n: nat): char
    requires n < 16
  {
    LowerDigits[n]
  }

  /** The digit for a nibble is a lower-case hexadecimal digit that reads
      back as the nibble. */
  lemma LowerDigitValue(n: nat)
    requires n < 16
    ensures LowerDigit(n) in LowerDigits
    ensures IsHexChar(LowerDigit(n)) && HexValue(LowerDigit(n)) == n
  {
  }

  /** A character accepted as a hexadecimal digit: 0-9, a-f or A-F. */
  predicate IsHexChar(c: char)
  {
    ('0' <= c <= '9') || ('a' <= c <= 'f') || ('A' <= c <= 'F')
  }

  /** The value of a hexadecimal digit. */
  function HexValue(c: char): (n: nat)
    requires IsHexChar(c)
    ensures n < 16
  {
    if '0' <= c <= '9' then c as int - '0' as int
    else if 'a' <= c <= 'f' then c as int - 'a' as int + 10
    else c as int - 'A' as int + 10
  }

  /** Every character of `s` is a hexadecimal digit. */
  predicate IsHex(s: string)
  {
    forall i :: 0 <= i < |s| ==> IsHexChar(s[i])
  }

  /** The two lower-case digits of one byte, high nibble first. */
  function ByteDigits(x: byte): (r: string)
    ensures |r| == 2
  {
    [LowerDigit(x / 16), LowerDigit(x % 16)]
  }

  /** Every character of `s` is a lower-case hexadecimal digit. */
  predicate IsLowerHex(s: string)
  {
    forall i :: 0 <= i < |s| ==> s[i] in LowerDigits
  }

  /** Lower-case digits are determined by their value. */
  lemma LowerDigitUnique(c: char, d: char)
    requires c in LowerDigits && d in LowerDigits
    ensures IsHexChar(c) && IsHexChar(d)
    ensures HexValue(c) == HexValue(d) ==> c == d
  {
    var k :| 0 <= k < |LowerDigits| && LowerDigits[k] == c;
    var m :| 0 <= m < |LowerDigits| && LowerDigits[m] == d;
    LowerDigitValue(k);
    LowerDigitValue(m);
  }

  /** The two digits of a byte are lower-case and read back as the byte. */
  lemma ByteDigitsValue(x: byte)
    ensures ByteDigits(x)[0] in LowerDigits && ByteDigits(x)[1] in LowerDigits
    ensures IsHexChar(ByteDigits(x)[0]) && IsHexChar(ByteDigits(x)[1])
    ensures 16 * HexValue(ByteDigits(x)[0]) + HexValue(ByteDigits(x)[1]) == x
  {
    LowerDigitValue(x / 16);
    LowerDigitValue(x % 16);
  }

  /** Lower-case base-16 encoding, two digits per byte. */
  function Encode(b: seq<byte>): (r: string)
    ensures |r| == 2 * |b|
  {
    if b == [] then []
    else ByteDigits(b[0]) + Encode(b[1..])
  }

  /** Decoding of an even-length string of hexadecimal digits, two digits
      per byte, high nibble first. */
  function Decode(s: string): (r: seq<byte>)
    requires |s| % 2 == 0 && IsHex(s)
    ensures 2 * |r| == |s|
  {
    if s == [] then []
    else [16 * HexValue(s[0]) + HexValue(s[1])] + Decode(s[2..])
  }

  /** Byte `i` of the input becomes characters `2i` and `2i+1` of the
      encoding: its high nibble, then its low nibble. */
  lemma {:induction false} EncodeAt(b: seq<byte>, i: nat)
    requires i < |b|
    ensures Encode(b)[2 * i] == ByteDigits(b[i])[0]
    ensures Encode(b)[2 * i + 1] == ByteDigits(b[i])[1]
  {
    var head, tail := ByteDigits(b[0]), Encode(b[1..]);
    assert Encode(b) == head + tail;
    if i == 0 {
      IndexHead(head, tail);
    } else {
      EncodeAt(b[1..], i - 1);
      assert b[1..][i - 1] == b[i];
      IndexPastHead(head, tail, 2 * (i - 1));
      IndexPastHead(head, tail, 2 * (i - 1) + 1);
    }
  }

  /** The first two characters of a two-character head and a tail. */
  lemma IndexHead(head: string, tail: string)
    requires |head| == 2
    ensures (head + tail)[0] == head[0] && (head + tail)[1] == head[1]
  {
  }

  /** Indexing past a two-character head reads the tail. */
  lemma IndexPastHead(head: string, tail: string, k: nat)
    requires |head| == 2 && k < |tail|
    ensures (head + tail)[k + 2] == tail[k]
  {
  }

  /** Byte `i` of the decoding is read from characters `2i` (high nibble)
      and `2i+1` (low nibble). */
  lemma {:induction false} DecodeAt(s: string, i: nat)
    requires |s| % 2 == 0 && IsHex(s)
    requires 2 * i + 1 < |s|
    ensures Decode(s)[i] == 16 * HexValue(s[2 * i]) + HexValue(s[2 * i + 1])
  {
    if i > 0 {
      assert IsHex(s[2..]) by {
        forall k | 0 <= k < |s| - 2 ensures IsHexChar(s[2..][k]) {
          assert s[2..][k] == s[k + 2];
        }
      }
      DecodeAt(s[2..], i - 1);
      assert s[2..][2 * (i - 1)] == s[2 * i];
      assert s[2..][2 * (i - 1) + 1] == s[2 * i + 1];
    }
  }

  /** The low bit of a byte read from two digits is the low bit of the
      second digit. */
  lemma DecodeLowBit(s: string)
    requires |s| == 2 && IsHex(s)
    ensures |Decode(s)| == 1 && Decode(s)[0] % 2 == HexValue(s[1]) % 2
  {
    DecodeAt(s, 0);
    var hi, lo := HexValue(s[0]), HexValue(s[1]);
    assert 16 * hi + lo == 2 * (8 * hi) + lo;
  }

  /** The encoder only emits lower-case hexadecimal digits. */
  lemma EncodeLower(b: seq<byte>)
    ensures IsLowerHex(Encode(b))
    ensures IsHex(Encode(b))
  {
    var r := Encode(b);
    forall i | 0 <= i < |r|
      ensures r[i] in LowerDigits && IsHexChar(r[i])
    {
      var j := Half(i);
      EncodeAt(b, j);
      ByteDigitsValue(b[j]);
    }
  }

  /** An encoding has even length. */
  lemma EncodeEven(b: seq<byte>)
    ensures |Encode(b)| % 2 == 0
  {
    Twice(|b|);
  }

  lemma Twice(n: nat)
    ensures (2 * n) % 2 == 0
  {
  }

  /** Decoding an encoding gives back the bytes. */
  lemma DecodeEncode(b: seq<byte>)
    ensures IsHex(Encode(b)) && Decode(Encode(b)) == b
  {
    EncodeLower(b);
    EncodeEven(b);
    var r := Decode(Encode(b));
    forall i | 0 <= i < |b|
      ensures r[i] == b[i]
    {
      DecodeEncodeAt(b, i);
    }
  }

  lemma DecodeEncodeAt(b: seq<byte>, i: nat)
    requires i < |b|
    ensures IsHex(Encode(b)) && |Decode(Encode(b))| == |b| && Decode(Encode(b))[i] == b[i]
  {
    var e := Encode(b);
    EncodeLower(b);
    EncodeEven(b);
    EncodeAt(b, i);
    ByteDigitsValue(b[i]);
    DecodeAt(e, i);
  }

  /** The position of character `i` within its pair. */
  function Half(i: nat): (j: nat)
    ensures i == 2 * j || i == 2 * j + 1
  {
    i / 2
  }

  /** Two nibbles are determined by the byte they make up. */
  lemma NibblesUnique(a: nat, b: nat, c: nat, d: nat)
    requires a < 16 && b < 16 && c < 16 && d < 16
    requires 16 * a + b == 16 * c + d
    ensures a == c && b == d
  {
  }

  /** Encoding a decoding gives back the text up to the case of its letters. */
  lemma EncodeDecode(s: string)
    requires |s| % 2 == 0 && IsHex(s)
    ensures |Encode(Decode(s))| == |s|
    ensures forall i :: 0 <= i < |s| ==>
      IsHexChar(Encode(Decode(s))[i]) && HexValue(Encode(Decode(s))[i]) == HexValue(s[i])
  {
    forall i | 0 <= i < |s|
      ensures IsHexChar(Encode(Decode(s))[i]) && HexValue(Encode(Decode(s))[i]) == HexValue(s[i])
    {
      EncodeDecodeAt(s, i);
    }
  }

  /** Character `i` of the re-encoding has the value of character `i`. */
  lemma EncodeDecodeAt(s: string, i: nat)
    requires |s| % 2 == 0 && IsHex(s) && i < |s|
    ensures |Encode(Decode(s))| == |s|
    ensures IsHexChar(Encode(Decode(s))[i]) && HexValue(Encode(Decode(s))[i]) == HexValue(s[i])
  {
    EncodeDecodePair(s, Half(i));
  }

  /** The two characters re-encoded from byte `j` have the values of
      characters `2j` and `2j+1`. */
  lemma EncodeDecodePair(s: string, j: nat)
    requires |s| % 2 == 0 && IsHex(s) && 2 * j + 1 < |s|
    ensures |Encode(Decode(s))| == |s|
    ensures IsHexChar(Encode(Decode(s))[2 * j]) && HexValue(Encode(Decode(s))[2 * j]) == HexValue(s[2 * j])
    ensures IsHexChar(Encode(Decode(s))[2 * j + 1]) && HexValue(Encode(Decode(s))[2 * j + 1]) == HexValue(s[2 * j + 1])
  {
    var d := Decode(s);
    DecodeAt(s, j);
    EncodeAt(d, j);
    var digits := ByteDigits(d[j]);
    ByteDigitsValue(d[j]);
    NibblesUnique(HexValue(digits[0]), HexValue(digits[1]), HexValue(s[2 * j]), HexValue(s[2 * j + 1]));
  }

  /** Lower-case text survives decoding and re-encoding unchanged. */
  lemma EncodeDecodeLower(s: string)
    requires |s| % 2 == 0 && IsLowerHex(s)
    ensures IsHex(s) && Encode(Decode(s)) == s
  {
    assert IsHex(s) by {
      forall i | 0 <= i < |s| ensures IsHexChar(s[i]) {
        LowerDigitUnique(s[i], s[i]);
      }
    }
    var r := Encode(Decode(s));
    EncodeDecode(s);
    EncodeLower(Decode(s));
    forall i | 0 <= i < |s|
      ensures r[i] == s[i]
    {
      LowerDigitUnique(r[i], s[i]);
    }
  }
}
