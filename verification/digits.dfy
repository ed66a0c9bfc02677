/** Decimal digit strings: the fixed-width zero-padded fields of `strftime`
    and `strptime`, and Python's `str(n)` for the tweet numbers. */
module Digits {

  predicate IsDigit(c: char) {
    '0' <= c <= '9'
  }

  predicate AllDigits(s: string) {
    forall i :: 0 <= i < |s| ==> IsDigit(s[i])
  }

  function DigitChar(d: nat): (c: char)
    requires d < 10
    ensures IsDigit(c) && c as int - '0' as int == d
  {
    (('0' as int) + d) as char
  }

  function Pow10(n: nat): nat {
    if n == 0 then 1 else 10 * Pow10(n - 1)
  }

  /** The number a string of decimal digits denotes (most significant first). */
  function Value(s: string): nat
    requires AllDigits(s)
  {
    if |s| == 0 then 0 else Value(s[..|s| - 1]) * 10 + (s[|s| - 1] as int - '0' as int)
  }

  /** The `n` lowest decimal digits of `v`, zero-padded on the left: the
      `%Y` (n = 4), `%m` and `%d` (n = 2) fields of `strftime`. */
  function Pad(n: nat, v: nat): (r: string)
    ensures |r| == n && AllDigits(r)
  {
    if n == 0 then "" else Pad(n - 1, v / 10) + [DigitChar(v % 10)]
  }

  /** A padded field reads back as the number it was written from. */
  lemma {:induction false} ValuePad(n: nat, v: nat)
    requires v < Pow10(n)
    ensures Value(Pad(n, v)) == v
  {
    if n > 0 {
      var r := Pad(n, v);
      assert r[..n - 1] == Pad(n - 1, v / 10);
      ValuePad(n - 1, v / 10);
    }
  }

  /** A digit string is the padded rendering of its own value, so a field of
      fixed width is determined by the number it denotes. */
  lemma {:induction false} PadValue(s: string)
    requires AllDigits(s)
    ensures Value(s) < Pow10(|s|)
    ensures Pad(|s|, Value(s)) == s
  {
    if |s| > 0 {
      var p := s[..|s| - 1];
      PadValue(p);
      var d := s[|s| - 1] as int - '0' as int;
      assert (Value(p) * 10 + d) / 10 == Value(p);
      assert (Value(p) * 10 + d) % 10 == d;
    }
  }

  /** Python's `str(n)` for a non-negative integer: no leading zeros. */
  function Decimal(n: nat): (r: string)
    ensures |r| >= 1 && AllDigits(r)
    ensures |r| > 1 ==> r[0] != '0'
  {
    if n < 10 then [DigitChar(n)] else Decimal(n / 10) + [DigitChar(n % 10)]
  }

  /** `str(n)` reads back as `n`. */
  lemma {:induction false} ValueDecimal(n: nat)
    ensures Value(Decimal(n)) == n
  {
    var r := Decimal(n);
    if n < 10 {
      assert r[..0] == [];
    } else {
      assert r[..|r| - 1] == Decimal(n / 10);
      ValueDecimal(n / 10);
    }
  }
}
