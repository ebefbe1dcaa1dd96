/**
 * Lower-case hexadecimal encoding of a byte buffer, as Node's
 * `Buffer.toString('hex')` produces it: two characters per byte, high nibble
 * first, alphabet `0-9a-f`. `Decode` is its inverse and exists so that the
 * encoding can be shown to be injective.
 */
module Hex {
  import opened Optional

  type byte = x: int | 0 <= x < 256

  /** The characters `Encode` may produce. */
  predicate IsHexDigit(c: char) {
    '0' <= c <= '9' || 'a' <= c <= 'f'
  }

  /** The value of one lower-case hex digit; `None` for any other character. */
  function DigitValue(c: char): (v: Option<int>)
    ensures v.Some? <==> IsHexDigit(c)
    ensures v.Some? ==> 0 <= v.value < 16
  {
    if '0' <= c <= '9' then Some(c as int - '0' as int)
    else if 'a' <= c <= 'f' then Some(c as int - 'a' as int + 10)
    else None
  }

  /** The lower-case digit of a nibble. */
  function Digit(n: int): (c: char)
    requires 0 <= n < 16
    ensures IsHexDigit(c)
    ensures DigitValue(c) == Some(n)
  {
    if n < 10 then ('0' as int + n) as char else ('a' as int + n - 10) as char
  }

  lemma DigitOfValue(c: char)
    requires IsHexDigit(c)
    ensures Digit(DigitValue(c).value) == c
  {
  }

  /** `Buffer.toString('hex')`. */
  function Encode(bytes: seq<byte>): (s: string)
    ensures |s| == 2 * |bytes|
    ensures forall i :: 0 <= i < |s| ==> IsHexDigit(s[i])
  {
    if bytes == [] then []
    else [Digit(bytes[0] / 16), Digit(bytes[0] % 16)] + Encode(bytes[1..])
  }

  /** Reads back a string made of pairs of lower-case hex digits. */
  function Decode(s: string): (r: Option<seq<byte>>)
    ensures r.Some? ==> 2 * |r.value| == |s|
    ensures r.Some? <==> |s| % 2 == 0 && forall i :: 0 <= i < |s| ==> IsHexDigit(s[i])
  {
    if |s| == 0 then Some([])
    else if |s| == 1 then None
    else
      var hi, lo, rest := DigitValue(s[0]), DigitValue(s[1]), Decode(s[2..]);
      assert forall i :: 2 <= i < |s| ==> s[i] == s[2..][i - 2];
      if hi.Some? && lo.Some? && rest.Some? then Some([hi.value * 16 + lo.value] + rest.value)
      else None
  }

  /** Decoding undoes encoding. */
  lemma {:induction false} DecodeEncode(bytes: seq<byte>)
    ensures Decode(Encode(bytes)) == Some(bytes)
  {
    if bytes != [] {
      var s := Encode(bytes);
      DecodeEncode(bytes[1..]);
      assert s[2..] == Encode(bytes[1..]);
      assert bytes == [bytes[0] / 16 * 16 + bytes[0] % 16] + bytes[1..];
    }
  }

  /** Encoding undoes decoding: every string `Decode` accepts is the encoding of what it returns. */
  lemma {:induction false} EncodeDecode(s: string)
    requires Decode(s).Some?
    ensures Encode(Decode(s).value) == s
  {
    if |s| >= 2 {
      assert forall i :: 0 <= i < |s| - 2 ==> s[2..][i] == s[i + 2];
      EncodeDecode(s[2..]);
      var b := Decode(s).value;
      var hi, lo := DigitValue(s[0]).value, DigitValue(s[1]).value;
      assert b[0] == hi * 16 + lo && b[1..] == Decode(s[2..]).value;
      assert b[0] / 16 == hi && b[0] % 16 == lo;
      DigitOfValue(s[0]);
      DigitOfValue(s[1]);
      assert s == [s[0], s[1]] + s[2..];
    }
  }

  /** Two buffers with the same hex text are the same buffer. */
  lemma EncodeInjective(a: seq<byte>, b: seq<byte>)
    ensures Encode(a) == Encode(b) <==> a == b
  {
    DecodeEncode(a);
    DecodeEncode(b);
  }
}
