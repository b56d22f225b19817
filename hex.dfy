/**
 * `Data.toHexString`: every byte is written as `String(format: "%02hhx")`,
 * two lower-case hexadecimal digits, high nibble first, and the pieces are
 * joined with no separator.
 */
module Hex {
  import opened Wrappers
  import opened Bytes

  /** The lower-case hexadecimal digit of a nibble. */
  function HexDigit(nibble: int): (c: char)
    requires 0 <= nibble < 16
  {
    if nibble < 10 then ('0' as int + nibble) as char else ('a' as int + nibble - 10) as char
  }

  predicate IsHexDigit(c: char) {
    '0' <= c <= '9' || 'a' <= c <= 'f'
  }

  /** The value of a lower-case hexadecimal digit, or None for any other character. */
  function DigitValue(c: char): (v: Option<int>)
    ensures v.Some? <==> IsHexDigit(c)
    ensures v.Some? ==> 0 <= v.value < 16
  {
    if '0' <= c <= '9' then Some(c as int - '0' as int)
    else if 'a' <= c <= 'f' then Some(c as int - 'a' as int + 10)
    else None
  }

  lemma DigitValueOfHexDigit(nibble: int)
    requires 0 <= nibble < 16
    ensures IsHexDigit(HexDigit(nibble)) && DigitValue(HexDigit(nibble)) == Some(nibble)
  {
  }

  /** `String(format: "%02hhx", b)`. */
  function ByteToHex(b: uint8): (s: string)
    ensures |s| == 2 && DigitValue(s[0]).Some? && DigitValue(s[1]).Some?
    ensures 16 * DigitValue(s[0]).value + DigitValue(s[1]).value == b
  {
    DigitValueOfHexDigit(b / 16);
    DigitValueOfHexDigit(b % 16);
    [HexDigit(b / 16), HexDigit(b % 16)]
  }

  function ToHexString(data: seq<uint8>): (s: string)
    ensures |s| == 2 * |data|
  {
    if data == [] then "" else ByteToHex(data[0]) + ToHexString(data[1..])
  }

  /** Characters `2i` and `2i+1` are the high and low nibble of byte `i`. */
  lemma {:induction false} ToHexStringAt(data: seq<uint8>, i: nat)
    requires i < |data|
    ensures ToHexString(data)[2 * i] == HexDigit(data[i] / 16)
    ensures ToHexString(data)[2 * i + 1] == HexDigit(data[i] % 16)
    decreases i
  {
    if i > 0 {
      ToHexStringAt(data[1..], i - 1);
    }
  }

  /** The output uses only the characters 0-9 and a-f. */
  lemma ToHexStringAlphabet(data: seq<uint8>)
    ensures forall k :: 0 <= k < |ToHexString(data)| ==> IsHexDigit(ToHexString(data)[k])
  {
    forall k | 0 <= k < |ToHexString(data)|
      ensures IsHexDigit(ToHexString(data)[k])
    {
      ToHexStringAt(data, k / 2);
      DigitValueOfHexDigit(data[k / 2] / 16);
      DigitValueOfHexDigit(data[k / 2] % 16);
    }
  }

  /** `joined()` of the mapped pieces: the encoding of a concatenation is the concatenation of encodings. */
  lemma {:induction false} ToHexStringAppend(a: seq<uint8>, b: seq<uint8>)
    ensures ToHexString(a + b) == ToHexString(a) + ToHexString(b)
  {
    if a == [] {
      assert a + b == b;
    } else {
      assert (a + b)[0] == a[0] && (a + b)[1..] == a[1..] + b;
      assert ToHexString(a + b) == ByteToHex(a[0]) + ToHexString(a[1..] + b);
      ToHexStringAppend(a[1..], b);
      assert ToHexString(a) == ByteToHex(a[0]) + ToHexString(a[1..]);
    }
  }

  /** Reads back a string of digit pairs; None when its length is odd or it holds a non-digit. */
  function FromHexString(s: string): (r: Option<seq<uint8>>)
    ensures r.Some? ==> 2 * |r.value| == |s|
    decreases |s|
  {
    if s == [] then Some([])
    else if |s| == 1 then None
    else match (DigitValue(s[0]), DigitValue(s[1]), FromHexString(s[2..]))
      case (Some(hi), Some(lo), Some(rest)) => Some([16 * hi + lo] + rest)
      case _ => None
  }

  lemma {:induction false} HexRoundTrip(data: seq<uint8>)
    ensures FromHexString(ToHexString(data)) == Some(data)
  {
    if data != [] {
      var s := ToHexString(data);
      HexRoundTrip(data[1..]);
      DigitValueOfHexDigit(data[0] / 16);
      DigitValueOfHexDigit(data[0] % 16);
      assert s[2..] == ToHexString(data[1..]);
      assert [data[0]] + data[1..] == data;
    }
  }
}
