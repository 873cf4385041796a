/**
  Base-16 integer parsing, the way Go's `strconv.ParseUint` and
  `strconv.ParseInt` do it when called with base 16.

  A Go string is a sequence of bytes; here each element of a `string`
  stands for one byte. Only the base-16 path is modelled: no base prefixes
  ("0x"), no underscores (Go allows those only for base 0).
*/
module Strconv {

  /** The bytes Go's parser accepts as base-16 digits. */
  predicate IsHexDigit(c: char) {
    ('0' <= c <= '9') || ('a' <= c <= 'f') || ('A' <= c <= 'F')
  }

  predicate AllHex(s: string) {
    forall i | 0 <= i < |s| :: IsHexDigit(s[i])
  }

  predicate IsSign(c: char) {
    c == '+' || c == '-'
  }

  function DigitValue(c: char): (d: nat)
    requires IsHexDigit(c)
    ensures d < 16
  {
    if '0' <= c <= '9' then c as int - '0' as int
    else if 'a' <= c <= 'f' then c as int - 'a' as int + 10
    else c as int - 'A' as int + 10
  }

  /** The number a string of hex digits denotes, most significant digit first. */
  function HexValue(s: string): nat
    requires AllHex(s)
  {
    if |s| == 0 then 0 else 16 * HexValue(s[..|s| - 1]) + DigitValue(s[|s| - 1])
  }

  function Pow2(k: nat): (p: nat)
    ensures p >= 1
  {
    if k == 0 then 1 else 2 * Pow2(k - 1)
  }

  /** Go reports a failed parse through a `*NumError` whose `Err` is
      `ErrSyntax` or `ErrRange`; `Ok` stands for a nil error. */
  datatype Status = Ok | ErrSyntax | ErrRange

  /** The pair `(value, err)` a Go parse function returns. */
  datatype Parsed = Parsed(n: int, status: Status)

  /** A string that Go's `ParseInt(s, 16, bitSize)` accepts: an optional
      sign followed by at least one hex digit (range aside). */
  predicate IsSignedHex(s: string) {
    |s| > 0 && (AllHex(s) || (IsSign(s[0]) && |s| > 1 && AllHex(s[1..])))
  }

  /** `strconv.ParseUint(s, 16, bitSize)`. */
  function ParseUint(s: string, bitSize: nat): (p: Parsed)
    requires 1 <= bitSize <= 64
    ensures p.status == ErrSyntax ==> p.n == 0
    ensures p.status == ErrRange ==> p.n == Pow2(bitSize) - 1
    ensures 0 <= p.n < Pow2(bitSize)
  {
    if |s| == 0 then Parsed(0, ErrSyntax) else Scan(s, 0, 0, Pow2(bitSize) - 1)
  }

  /** The digit loop of `ParseUint`, from byte `i` on, with `n` the value of
      the digits before it. Go checks `n >= cutoff` and then `n1 > maxVal`
      so that its 64-bit arithmetic cannot wrap; with unbounded integers both
      checks together say exactly `16 * n + d > maxVal`. The loop stops at the
      first bad byte or the first overflow, whichever comes first. */
  function Scan(s: string, i: nat, n: nat, maxVal: nat): (p: Parsed)
    requires i <= |s| && n <= maxVal
    ensures p.status == ErrSyntax ==> p.n == 0
    ensures p.status == ErrRange ==> p.n == maxVal
    ensures 0 <= p.n <= maxVal
    decreases |s| - i
  {
    if i == |s| then Parsed(n, Ok)
    else if !IsHexDigit(s[i]) then Parsed(0, ErrSyntax)
    else if 16 * n + DigitValue(s[i]) > maxVal then Parsed(maxVal, ErrRange)
    else Scan(s, i + 1, 16 * n + DigitValue(s[i]), maxVal)
  }

  /** `strconv.ParseInt(s, 16, bitSize)`: an optional leading sign, the
      unsigned parse of the rest, then saturation to the signed range of
      `bitSize` bits. A syntax error yields 0; an out-of-range value yields
      the nearest bound together with `ErrRange`. */
  function ParseInt(s: string, bitSize: nat): (p: Parsed)
    requires 1 <= bitSize <= 64
    ensures -(Pow2(bitSize - 1) as int) <= p.n < Pow2(bitSize - 1)
    ensures p.status == ErrSyntax ==> p.n == 0
  {
    if |s| == 0 then Parsed(0, ErrSyntax)
    else
      var neg := s[0] == '-';
      var digits := if IsSign(s[0]) then s[1..] else s;
      var u := ParseUint(digits, bitSize);
      if u.status == ErrSyntax then Parsed(0, ErrSyntax)
      else
        var cutoff: int := Pow2(bitSize - 1);
        if !neg && u.n >= cutoff then Parsed(cutoff - 1, ErrRange)
        else if neg && u.n > cutoff then Parsed(-cutoff, ErrRange)
        else Parsed(if neg then -u.n else u.n, Ok)
  }

  // ---------------------------------------------------------------------
  // Facts about hex values
  // ---------------------------------------------------------------------

  lemma {:induction false} HexValueBound(s: string)
    requires AllHex(s)
    ensures HexValue(s) < Pow2(4 * |s|)
  {
    if |s| > 0 {
      var t := s[..|s| - 1];
      HexValueBound(t);
      var k := 4 * |t|;
      assert Pow2(k + 4) == 2 * Pow2(k + 3) == 4 * Pow2(k + 2) == 8 * Pow2(k + 1) == 16 * Pow2(k);
    }
  }

  /** A longer prefix of a digit string never denotes a smaller number. */
  lemma {:induction false} HexValuePrefixMonotone(s: string, j: nat)
    requires AllHex(s) && j <= |s|
    ensures HexValue(s[..j]) <= HexValue(s)
    decreases |s| - j
  {
    if j < |s| {
      HexValuePrefixMonotone(s, j + 1);
      assert s[..j + 1][..j] == s[..j];
      assert HexValue(s[..j + 1]) == 16 * HexValue(s[..j]) + DigitValue(s[j]);
    } else {
      assert s[..j] == s;
    }
  }

  /** The value of a two-digit string is `16 * first + second`. */
  lemma HexValuePair(p: string)
    requires |p| == 2 && AllHex(p)
    ensures HexValue(p) == 16 * DigitValue(p[0]) + DigitValue(p[1])
  {
    assert p[..1] == [p[0]];
    assert p[..1][..0] == [];
    assert HexValue(p[..1]) == DigitValue(p[0]);
  }

  // ---------------------------------------------------------------------
  // ParseUint
  // ---------------------------------------------------------------------

  lemma {:induction false} ScanAllHex(s: string, i: nat, n: nat, maxVal: nat)
    requires AllHex(s) && i <= |s| && n <= maxVal
    requires n == HexValue(s[..i])
    ensures Scan(s, i, n, maxVal)
         == if HexValue(s) <= maxVal then Parsed(HexValue(s), Ok) else Parsed(maxVal, ErrRange)
    decreases |s| - i
  {
    if i == |s| {
      assert s[..i] == s;
    } else {
      var n1 := 16 * n + DigitValue(s[i]);
      assert s[..i + 1][..i] == s[..i];
      assert n1 == HexValue(s[..i + 1]);
      HexValuePrefixMonotone(s, i + 1);
      if n1 <= maxVal {
        ScanAllHex(s, i + 1, n1, maxVal);
      }
    }
  }

  lemma {:induction false} ScanRejectsNonHex(s: string, i: nat, n: nat, maxVal: nat)
    requires i <= |s| && n <= maxVal
    requires !AllHex(s[i..])
    ensures Scan(s, i, n, maxVal).status != Ok
    decreases |s| - i
  {
    assert i < |s|;
    if IsHexDigit(s[i]) && 16 * n + DigitValue(s[i]) <= maxVal {
      assert s[i..][1..] == s[i + 1..];
      ScanRejectsNonHex(s, i + 1, 16 * n + DigitValue(s[i]), maxVal);
    }
  }

  /** A string of at most `bitSize / 4` bytes cannot overflow `bitSize` bits. */
  lemma {:induction false} ScanNoOverflow(s: string, i: nat, n: nat, bitSize: nat)
    requires i <= |s| && 4 * |s| <= bitSize
    requires n < Pow2(4 * i) && n <= Pow2(bitSize) - 1
    ensures Scan(s, i, n, Pow2(bitSize) - 1).status != ErrRange
    decreases |s| - i
  {
    if i < |s| && IsHexDigit(s[i]) {
      var k := 4 * i;
      assert Pow2(k + 4) == 2 * Pow2(k + 3) == 4 * Pow2(k + 2) == 8 * Pow2(k + 1) == 16 * Pow2(k);
      Pow2Monotone(k + 4, bitSize);
      ScanNoOverflow(s, i + 1, 16 * n + DigitValue(s[i]), bitSize);
    }
  }

  /** `ParseUint` succeeds exactly on non-empty digit strings whose value
      fits in `bitSize` bits, and then returns that value; a digit string
      that does not fit saturates to the largest `bitSize`-bit number. */
  lemma ParseUintSpec(s: string, bitSize: nat)
    requires 1 <= bitSize <= 64
    ensures ParseUint(s, bitSize).status == Ok
        <==> |s| > 0 && AllHex(s) && HexValue(s) < Pow2(bitSize)
    ensures |s| > 0 && AllHex(s) ==>
              (ParseUint(s, bitSize)
               == if HexValue(s) < Pow2(bitSize) then Parsed(HexValue(s), Ok)
                  else Parsed(Pow2(bitSize) - 1, ErrRange))
    ensures 4 * |s| <= bitSize ==> ParseUint(s, bitSize).status != ErrRange
  {
    if |s| > 0 {
      if 4 * |s| <= bitSize {
        ScanNoOverflow(s, 0, 0, bitSize);
      }
      if AllHex(s) {
        assert s[..0] == [];
        ScanAllHex(s, 0, 0, Pow2(bitSize) - 1);
      } else {
        assert s[0..] == s;
        ScanRejectsNonHex(s, 0, 0, Pow2(bitSize) - 1);
      }
    }
  }

  // ---------------------------------------------------------------------
  // ParseInt at the two widths the program uses
  // ---------------------------------------------------------------------

  /** With bitSize 64, a string of at most 15 bytes is accepted exactly when
      it is an optionally signed hex numeral: at most 15 digits always fit. */
  lemma ParseInt64Accepts(s: string)
    requires |s| <= 15
    ensures ParseInt(s, 64).status == Ok <==> IsSignedHex(s)
  {
    if |s| > 0 {
      if IsSign(s[0]) {
        assert !AllHex(s) by { assert !IsHexDigit(s[0]); }
        ParseInt64Digits(s, s[1..]);
      } else {
        ParseInt64Digits(s, s);
      }
    }
  }

  /** The 64-bit parse of a string succeeds exactly when the digits after
      its optional sign are a non-empty hex numeral. */
  lemma ParseInt64Digits(s: string, digits: string)
    requires 0 < |s| <= 15
    requires digits == if IsSign(s[0]) then s[1..] else s
    ensures ParseInt(s, 64).status == Ok <==> |digits| > 0 && AllHex(digits)
  {
    ParseIntStatus(s, 64);
    ParseUintSpec(digits, 64);
    if |digits| > 0 && AllHex(digits) {
      FifteenDigitsFit(digits);
    }
  }

  /** `ParseInt` succeeds exactly when the unsigned parse of the digits
      after the optional sign succeeds with a magnitude inside the signed
      range. */
  lemma ParseIntStatus(s: string, bitSize: nat)
    requires 2 <= bitSize <= 64 && |s| > 0
    ensures var u := ParseUint(if IsSign(s[0]) then s[1..] else s, bitSize);
            ParseInt(s, bitSize).status == Ok
            <==> u.status == Ok && (if s[0] == '-' then u.n <= Pow2(bitSize - 1) else u.n < Pow2(bitSize - 1))
  {
  }

  /** At most fifteen hex digits are below 2^60, far inside 63 bits. */
  lemma FifteenDigitsFit(s: string)
    requires AllHex(s) && |s| <= 15
    ensures HexValue(s) < Pow2(60) < Pow2(63) < Pow2(64)
  {
    HexValueBound(s);
    Pow2Monotone(4 * |s|, 60);
    Pow2Steps(60);
  }

  lemma Pow2Steps(k: nat)
    ensures Pow2(k) < Pow2(k + 3) < Pow2(k + 4)
  {
    assert Pow2(k + 4) == 2 * Pow2(k + 3) && Pow2(k + 3) == 2 * Pow2(k + 2);
    assert Pow2(k + 2) == 2 * Pow2(k + 1) && Pow2(k + 1) == 2 * Pow2(k);
  }

  lemma {:induction false} Pow2Monotone(j: nat, k: nat)
    requires j <= k
    ensures Pow2(j) <= Pow2(k)
    decreases k - j
  {
    if j < k {
      Pow2Monotone(j, k - 1);
    }
  }

  /** With bitSize 8, a two-byte string parses to: its value capped at 127
      when both bytes are hex digits; plus or minus the digit after a
      leading sign; and 0 otherwise (the syntax-error result). */
  lemma ParseInt8Pair(p: string)
    requires |p| == 2
    ensures AllHex(p) ==> ParseInt(p, 8).n == Clamp127(HexValue(p))
    ensures p[0] == '+' && IsHexDigit(p[1]) ==> ParseInt(p, 8).n == DigitValue(p[1])
    ensures p[0] == '-' && IsHexDigit(p[1]) ==> ParseInt(p, 8).n == -(DigitValue(p[1]) as int)
    ensures !AllHex(p) && !(IsSign(p[0]) && IsHexDigit(p[1])) ==> ParseInt(p, 8).n == 0
  {
    assert Pow2(7) == 128;
    assert Pow2(8) == 256;
    var digits := if IsSign(p[0]) then p[1..] else p;
    ParseUintSpec(digits, 8);
    if AllHex(digits) {
      HexValueBound(digits);
      assert Pow2(4 * |digits|) <= 256 by {
        if |digits| == 1 { assert Pow2(4) == 16; }
      }
    }
    if IsSign(p[0]) && IsHexDigit(p[1]) {
      assert digits == [p[1]];
      assert digits[..0] == [];
      assert HexValue(digits) == DigitValue(p[1]);
    }
    if AllHex(p) {
      assert !IsSign(p[0]);
    }
    if !AllHex(p) && !(IsSign(p[0]) && IsHexDigit(p[1])) {
      assert !AllHex(digits);
    }
  }

  /** The largest value of a signed 8-bit integer caps `v`. */
  function Clamp127(v: int): int {
    if v <= 127 then v else 127
  }
}
