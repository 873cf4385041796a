/**
  The `%02X` verb of Go's `fmt` package applied to an `int`: the value in
  upper-case hexadecimal, zero-padded on the left to two characters. A
  negative value is written as `-` followed by the digits of its magnitude;
  the sign takes up the padding, so `-5` prints as `-5` and `-128` as `-80`.
*/
module Fmt {
  import opened Strconv

  /** The upper-case hex digits `0-9A-F` that `%X` writes. */
  predicate IsUpperHexDigit(c: char) {
    ('0' <= c <= '9') || ('A' <= c <= 'F')
  }

  predicate AllUpperHex(s: string) {
    forall i | 0 <= i < |s| :: IsUpperHexDigit(s[i])
  }

  /** The digit `%X` writes for a value below 16. */
  function UpperDigit(d: nat): (c: char)
    requires d < 16
    ensures IsUpperHexDigit(c) && IsHexDigit(c) && DigitValue(c) == d
  {
    if d < 10 then ('0' as int + d) as char else ('A' as int + d - 10) as char
  }

  lemma UpperDigitOfValue(c: char)
    requires IsUpperHexDigit(c)
    ensures UpperDigit(DigitValue(c)) == c
  {
  }

  /** The shortest upper-case hex numeral for `n`: no leading zeros, and
      `"0"` for zero. */
  function Digits(n: nat): (s: string)
    ensures |s| >= 1 && AllUpperHex(s) && AllHex(s)
    ensures HexValue(s) == n
    ensures n < 16 <==> |s| == 1
    ensures n < 256 ==> |s| <= 2
  {
    if n < 16 then [UpperDigit(n)]
    else
      var front := Digits(n / 16);
      var s := front + [UpperDigit(n % 16)];
      assert s[..|s| - 1] == front;
      s
  }

  /** `fmt.Sprintf("%02X", n)`. */
  function FormatX02(n: int): string {
    if n < 0 then "-" + Digits(-n)
    else if n < 16 then "0" + Digits(n)
    else Digits(n)
  }

  /** A byte value prints as two upper-case digits that denote it: the
      sixteens digit, then the units digit. */
  lemma FormatX02Byte(n: int)
    requires 0 <= n < 256
    ensures FormatX02(n) == [UpperDigit(n / 16), UpperDigit(n % 16)]
    ensures AllUpperHex(FormatX02(n)) && AllHex(FormatX02(n))
    ensures HexValue(FormatX02(n)) == n
  {
    var s := [UpperDigit(n / 16), UpperDigit(n % 16)];
    if n < 16 {
      assert FormatX02(n) == "0" + [UpperDigit(n)];
    } else {
      assert Digits(n / 16) == [UpperDigit(n / 16)];
    }
    HexValuePair(s);
  }

  /** Conversely, every two-digit upper-case numeral is what `%02X`
      prints for its own value. */
  lemma FormatX02OfPair(p: string)
    requires |p| == 2 && AllUpperHex(p)
    ensures AllHex(p) && FormatX02(HexValue(p)) == p
  {
    assert AllHex(p) by {
      forall i | 0 <= i < 2 ensures IsHexDigit(p[i]) {
        assert IsUpperHexDigit(p[i]);
      }
    }
    HexValuePair(p);
    var hi, lo := DigitValue(p[0]), DigitValue(p[1]);
    var v := 16 * hi + lo;
    assert v / 16 == hi && v % 16 == lo;
    FormatX02Byte(v);
    UpperDigitOfValue(p[0]);
    UpperDigitOfValue(p[1]);
  }
}
