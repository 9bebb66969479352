/** Decimal numerals, as JavaScript prints and reads natural numbers. */
module Numbers {

  predicate IsDigit(c: char) {
    '0' <= c <= '9'
  }

  predicate AllDigits(s: string) {
    forall k :: 0 <= k < |s| ==> IsDigit(s[k])
  }

  function DigitOf(n: nat): char
    requires n < 10
  {
    '0' + n as char
  }

  /** String(n) */
  function Decimal(n: nat): (s: string)
    ensures s != "" && AllDigits(s)
  {
    if n < 10 then [DigitOf(n)] else Decimal(n / 10) + [DigitOf(n % 10)]
  }

  /** The number a string of digits stands for. */
  function Numeral(s: string): nat
    requires AllDigits(s)
  {
    if s == "" then 0
    else
      var digit: int := (s[|s| - 1] as int) - ('0' as int);
      10 * Numeral(s[..|s| - 1]) + digit
  }

  lemma {:induction false} DecimalIsRead(n: nat)
    ensures Numeral(Decimal(n)) == n
  {
    var s := Decimal(n);
    if n < 10 {
      assert s[..0] == "";
      assert Numeral(s[..0]) == 0;
    } else {
      DecimalIsRead(n / 10);
      assert s[..|s| - 1] == Decimal(n / 10);
    }
  }

  /** Different numbers are printed differently. */
  lemma DecimalInjective(m: nat, n: nat)
    requires Decimal(m) == Decimal(n)
    ensures m == n
  {
    DecimalIsRead(m);
    DecimalIsRead(n);
  }

  // ---------------------------------------------------------------------------
  // Remainders

  lemma Distribute(a: int, b: int, c: int)
    ensures a * (b + c) == a * b + a * c
  {
  }

  lemma {:induction false} TimesGrows(a: nat, b: nat, c: nat)
    requires b <= c
    ensures a * b <= a * c
    decreases c
  {
    if b < c {
      TimesGrows(a, b, c - 1);
      Distribute(a, c - 1, 1);
    }
  }

  /** Only one remainder is small enough. */
  lemma RemainderIs(x: nat, step: nat, q: nat, r: nat)
    requires step > 0 && x == step * q + r && r < step
    ensures x % step == r
  {
    var q', r' := x / step, x % step;
    assert x == step * q' + r';
    if q' < q {
      TimesGrows(step, q' + 1, q);
      Distribute(step, q', 1);
    } else if q < q' {
      TimesGrows(step, q + 1, q');
      Distribute(step, q, 1);
    }
  }
}
