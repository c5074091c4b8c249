/** Digit strings in bases 2, 10 and 16: reading them (`parseInt`) and
    writing them (`Number.prototype.toString`, `String.prototype.padStart`). */
module Numerals {
  import opened Wrappers

  /** True when `c` is a digit of `base`; hexadecimal letters in either case. */
  predicate IsDigitOf(c: char, base: nat) {
    if base == 2 then c == '0' || c == '1'
    else if base == 10 then '0' <= c <= '9'
    else base == 16 && ('0' <= c <= '9' || 'a' <= c <= 'f' || 'A' <= c <= 'F')
  }

  predicate AllDigitsOf(s: string, base: nat) {
    forall k | 0 <= k < |s| :: IsDigitOf(s[k], base)
  }

  /** No upper-case hexadecimal letter, as `toString(16)` writes them. */
  predicate LowerCaseDigits(s: string) {
    forall k | 0 <= k < |s| :: !('A' <= s[k] <= 'F')
  }

  function DigitValue(c: char): nat {
    if '0' <= c <= '9' then c as nat - '0' as nat
    else if 'a' <= c <= 'f' then c as nat - 'a' as nat + 10
    else if 'A' <= c <= 'F' then c as nat - 'A' as nat + 10
    else 0
  }

  /** The lower-case digit for `d`. */
  function DigitChar(d: nat): (c: char)
    requires d < 16
    ensures DigitValue(c) == d
    ensures forall base | base == 2 || base == 10 || base == 16 :: d < base ==> IsDigitOf(c, base)
    ensures !('A' <= c <= 'F')
    ensures c == '0' <==> d == 0
  {
    if d < 10 then ('0' as int + d) as char else ('a' as int + d - 10) as char
  }

  /** The value of a digit string read most significant digit first. */
  function ParseDigits(s: string, base: nat): nat {
    if |s| == 0 then 0 else ParseDigits(s[..|s| - 1], base) * base + DigitValue(s[|s| - 1])
  }

  /** The canonical digits of `n`: no leading zero, lower-case letters. */
  function ToDigits(n: nat, base: nat): (r: string)
    requires base == 2 || base == 10 || base == 16
    ensures |r| >= 1
    ensures AllDigitsOf(r, base) && LowerCaseDigits(r)
    ensures r[0] == '0' <==> n == 0
    decreases n
  {
    if n < base then [DigitChar(n)]
    else
      var high := ToDigits(n / base, base);
      var r := high + [DigitChar(n % base)];
      assert r[0] == high[0];
      r
  }

  /** Appending a digit shifts the value read by one place. */
  lemma ParseDigitsSnoc(s: string, c: char, base: nat)
    ensures ParseDigits(s + [c], base) == ParseDigits(s, base) * base + DigitValue(c)
  {
    assert (s + [c])[..|s|] == s;
  }

  /** Division by a base, written out for each base so that the arithmetic stays linear. */
  lemma DivModBase(n: nat, base: nat)
    requires base == 2 || base == 10 || base == 16
    ensures n == (n / base) * base + n % base && n % base < base
  {
    if base == 2 {
      assert n == (n / 2) * 2 + n % 2;
    } else if base == 10 {
      assert n == (n / 10) * 10 + n % 10;
    } else {
      assert n == (n / 16) * 16 + n % 16;
    }
  }

  /** The digits written read back as the value; zero is written "0". */
  lemma {:induction false} ToDigitsValue(n: nat, base: nat)
    requires base == 2 || base == 10 || base == 16
    ensures ParseDigits(ToDigits(n, base), base) == n
    ensures n == 0 ==> ToDigits(n, base) == "0"
    decreases n
  {
    if n >= base {
      var q, m := n / base, n % base;
      DivModBase(n, base);
      ToDigitsValue(q, base);
      ParseDigitsSnoc(ToDigits(q, base), DigitChar(m), base);
    }
  }

  function Decimal(n: nat): string {
    ToDigits(n, 10)
  }

  function Hex(n: nat): string {
    ToDigits(n, 16)
  }

  function Zeros(k: nat): (z: string)
    ensures |z| == k
    ensures forall j | 0 <= j < k :: z[j] == '0'
  {
    seq(k, _ => '0')
  }

  /** `s.padStart(width, "0")`. */
  function PadStart(s: string, width: nat): (r: string)
    ensures |r| == if |s| >= width then |s| else width
    ensures r[|r| - |s|..] == s
    ensures forall j | 0 <= j < |r| - |s| :: r[j] == '0'
  {
    if |s| >= width then s else Zeros(width - |s|) + s
  }

  lemma {:induction false} ZerosValue(k: nat, base: nat)
    ensures ParseDigits(Zeros(k), base) == 0
  {
    if k > 0 {
      assert Zeros(k)[..k - 1] == Zeros(k - 1);
      ZerosValue(k - 1, base);
    }
  }

  /** Leading zeros do not change the value read. */
  lemma {:induction false} LeadingZerosValue(k: nat, s: string, base: nat)
    ensures ParseDigits(Zeros(k) + s, base) == ParseDigits(s, base)
    decreases |s|
  {
    if |s| == 0 {
      assert Zeros(k) + s == Zeros(k);
      ZerosValue(k, base);
    } else {
      var u := Zeros(k) + s;
      assert u[..|u| - 1] == Zeros(k) + s[..|s| - 1];
      LeadingZerosValue(k, s[..|s| - 1], base);
    }
  }

  /** Padding with zeros keeps the value: what `formatCodePoint` relies on. */
  lemma PadStartValue(s: string, width: nat, base: nat)
    ensures ParseDigits(PadStart(s, width), base) == ParseDigits(s, base)
  {
    if |s| < width {
      LeadingZerosValue(width - |s|, s, base);
    }
  }

  function Pow(b: nat, k: nat): nat {
    if k == 0 then 1 else b * Pow(b, k - 1)
  }

  lemma {:induction false} DigitsLength(n: nat, base: nat, k: nat)
    requires base == 2 || base == 10 || base == 16
    requires k >= 1 && n < Pow(base, k)
    ensures |ToDigits(n, base)| <= k
    decreases n
  {
    if n >= base {
      var p := Pow(base, k - 1);
      assert Pow(base, k) == base * p;
      if k == 1 {
        assert false;
      }
      var q := n / base;
      assert n == base * q + n % base;
      assert q < p;
      DigitsLength(q, base, k - 1);
    }
  }

  /** Padding digits with zeros leaves only digits. */
  lemma PadStartDigits(s: string, width: nat, base: nat)
    requires base == 2 || base == 10 || base == 16
    requires AllDigitsOf(s, base) && LowerCaseDigits(s)
    ensures AllDigitsOf(PadStart(s, width), base) && LowerCaseDigits(PadStart(s, width))
  {
    var p := PadStart(s, width);
    forall j | 0 <= j < |p| ensures IsDigitOf(p[j], base) && !('A' <= p[j] <= 'F') {
      if j >= |p| - |s| {
        assert p[j] == p[|p| - |s|..][j - (|p| - |s|)];
      }
    }
  }

  /** `hex.padStart(width, "0")` for a value with at most `width` hexadecimal digits. */
  lemma PaddedHex(n: nat, width: nat)
    requires width >= 1 && n < Pow(16, width)
    ensures |PadStart(Hex(n), width)| == width
    ensures AllDigitsOf(PadStart(Hex(n), width), 16) && LowerCaseDigits(PadStart(Hex(n), width))
    ensures ParseDigits(PadStart(Hex(n), width), 16) == n
  {
    DigitsLength(n, 16, width);
    ToDigitsValue(n, 16);
    PadStartValue(Hex(n), width, 16);
    PadStartDigits(Hex(n), width, 16);
  }

  /** Exactly `width` lower-case hexadecimal digits of `n`, most
      significant first: the low `width` digits, with leading zeros. */
  function FixedHex(n: nat, width: nat): (r: string)
    ensures |r| == width
    decreases width
  {
    if width == 0 then "" else FixedHex(n / 16, width - 1) + [DigitChar(n % 16)]
  }

  /** A value with at most `width` hexadecimal digits is written whole and
      reads back as itself. */
  lemma {:induction false} FixedHexValue(n: nat, width: nat)
    requires n < Pow(16, width)
    ensures AllDigitsOf(FixedHex(n, width), 16) && LowerCaseDigits(FixedHex(n, width))
    ensures ParseDigits(FixedHex(n, width), 16) == n
    decreases width
  {
    if width > 0 {
      var q := n / 16;
      assert n == 16 * q + n % 16;
      assert Pow(16, width) == 16 * Pow(16, width - 1);
      assert q < Pow(16, width - 1);
      FixedHexValue(q, width - 1);
      var r := FixedHex(n, width);
      assert r[..|r| - 1] == FixedHex(q, width - 1);
    }
  }

  /** A string of `k` digits of `base` reads as less than `base` to the `k`. */
  lemma {:induction false} ParseDigitsBound(s: string, base: nat)
    requires base == 2 || base == 10 || base == 16
    requires AllDigitsOf(s, base)
    ensures ParseDigits(s, base) < Pow(base, |s|)
    decreases |s|
  {
    if |s| > 0 {
      var init := s[..|s| - 1];
      assert AllDigitsOf(init, base) by {
        forall k | 0 <= k < |init| ensures IsDigitOf(init[k], base) {
          assert init[k] == s[k];
        }
      }
      ParseDigitsBound(init, base);
      var p := ParseDigits(init, base);
      var q := Pow(base, |s| - 1);
      var d := DigitValue(s[|s| - 1]);
      assert IsDigitOf(s[|s| - 1], base);
      assert d < base;
      assert (p + 1) * base <= q * base;
      assert ParseDigits(s, base) == p * base + d;
    }
  }

  /** The length of the run of decimal digits that starts `s`. */
  function DecimalRun(s: string): (n: nat)
    ensures n <= |s|
    ensures forall k | 0 <= k < n :: IsDigitOf(s[k], 10)
    ensures n < |s| ==> !IsDigitOf(s[n], 10)
  {
    if |s| > 0 && IsDigitOf(s[0], 10) then 1 + DecimalRun(s[1..]) else 0
  }
}
