/** Decimal notation of non-negative integers, as JavaScript's
    `Number.prototype.toString()` writes an integral number (shortest form, no
    sign, no leading zeros), together with its inverse and the facts about the
    trailing digits that the booking reference relies on. */
module Decimal {

  /** 10 to the power `k`. */
  function Pow10(k: nat): (r: nat)
    ensures r >= 1
  {
    if k == 0 then 1 else 10 * Pow10(k - 1)
  }

  predicate IsDigit(c: char) {
    '0' <= c <= '9'
  }

  predicate AllDigits(s: string) {
    forall i :: 0 <= i < |s| ==> IsDigit(s[i])
  }

  /** The character that writes the digit `d`. */
  function DigitChar(d: nat): (c: char)
    requires d < 10
    ensures IsDigit(c)
    ensures DigitValue(c) == d
  {
    ('0' as int + d) as char
  }

  /** The value of the digit written by `c`. */
  function DigitValue(c: char): (d: nat)
    requires IsDigit(c)
    ensures d < 10
  {
    (c as int - '0' as int) as nat
  }

  /** `n.toString()` for a non-negative integer `n`. */
  function ToDecimal(n: nat): (s: string)
    ensures 1 <= |s|
    ensures AllDigits(s)
    ensures s[0] == '0' ==> n == 0
    decreases n
  {
    if n < 10 then [DigitChar(n)] else ToDecimal(n / 10) + [DigitChar(n % 10)]
  }

  /** The number a string of decimal digits denotes (the empty string denotes 0). */
  function ParseDecimal(s: string): (n: nat)
    requires AllDigits(s)
    ensures n < Pow10(|s|)
  {
    if s == [] then 0
    else
      var init := s[..|s| - 1];
      assert AllDigits(init);
      10 * ParseDecimal(init) + DigitValue(s[|s| - 1])
  }

  /** The `k` least significant decimal digits of `n`, padded with leading zeros. */
  function LowDigits(n: nat, k: nat): (s: string)
    ensures |s| == k
    ensures AllDigits(s)
  {
    if k == 0 then [] else LowDigits(n / 10, k - 1) + [DigitChar(n % 10)]
  }

  /** Parsing undoes writing: the decimal string of `n` denotes `n`. */
  lemma {:induction false} ParseToDecimal(n: nat)
    ensures ParseDecimal(ToDecimal(n)) == n
    decreases n
  {
    if n >= 10 {
      var s := ToDecimal(n);
      assert s[..|s| - 1] == ToDecimal(n / 10);
      ParseToDecimal(n / 10);
    }
  }

  /** Writing is injective: distinct numbers have distinct decimal strings. */
  lemma ToDecimalInjective(n: nat, m: nat)
    ensures ToDecimal(n) == ToDecimal(m) <==> n == m
  {
    ParseToDecimal(n);
    ParseToDecimal(m);
  }

  /** For `k >= 1`, the decimal string of `n` has more than `k` digits exactly
      when `n >= 10^k`. */
  lemma {:induction false} ToDecimalLength(n: nat, k: nat)
    requires k >= 1
    ensures |ToDecimal(n)| > k <==> n >= Pow10(k)
    decreases n
  {
    if n >= 10 && k > 1 {
      ToDecimalLength(n / 10, k - 1);
      var p := Pow10(k - 1);
      assert n / 10 >= p <==> n >= 10 * p by {
        DivUnique(n, 10, n / 10, n % 10);
      }
    }
  }

  /** Arithmetic step shared by the trailing-digit lemmas: dropping the last
      digit commutes with reducing modulo a power of ten. */
  lemma DivModStep(n: nat, p: nat)
    requires p >= 1
    ensures (n / 10) % p == (n % (10 * p)) / 10
    ensures (n % (10 * p)) % 10 == n % 10
  {
    var q, r := n / (10 * p), n % (10 * p);
    assert n == (10 * p) * q + r;
    assert n == 10 * (p * q + r / 10) + r % 10;
    assert n / 10 == p * q + r / 10 && n % 10 == r % 10 by {
      DivUnique(n, 10, p * q + r / 10, r % 10);
    }
    assert r / 10 < p;
    DivUnique(n / 10, p, q, r / 10);
  }

  /** Quotient and remainder are unique. */
  lemma DivUnique(n: nat, d: nat, q: nat, r: nat)
    requires d >= 1 && r < d && n == d * q + r
    ensures n / d == q && n % d == r
  {
    var q', r' := n / d, n % d;
    assert d * q' + r' == d * q + r;
    assert d * (q' - q) == r - r';
    if q' > q {
      MulAtLeast(d, q' - q);
    } else if q' < q {
      MulAtLeast(d, q - q');
    }
  }

  lemma MulAtLeast(d: nat, x: nat)
    requires x >= 1
    ensures d * x >= d
  {
  }

  /** The last `k` characters of the decimal string of `n` are its `k` low digits. */
  lemma {:induction false} ToDecimalSuffix(n: nat, k: nat)
    requires k <= |ToDecimal(n)|
    ensures ToDecimal(n)[|ToDecimal(n)| - k..] == LowDigits(n, k)
    decreases n
  {
    var s := ToDecimal(n);
    if k == 0 {
    } else if n < 10 {
      assert LowDigits(n, k) == LowDigits(n / 10, 0) + [DigitChar(n)];
    } else {
      var t := ToDecimal(n / 10);
      ToDecimalSuffix(n / 10, k - 1);
      assert s[|s| - k..] == t[|t| - (k - 1)..] + [DigitChar(n % 10)];
    }
  }

  /** The `k` low digits of `n` denote `n` modulo `10^k`. */
  lemma {:induction false} ParseLowDigits(n: nat, k: nat)
    ensures ParseDecimal(LowDigits(n, k)) == n % Pow10(k)
  {
    if k > 0 {
      var s := LowDigits(n, k);
      assert s[..k - 1] == LowDigits(n / 10, k - 1);
      ParseLowDigits(n / 10, k - 1);
      DivModStep(n, Pow10(k - 1));
      var r := n % Pow10(k);
      assert r == 10 * (r / 10) + r % 10;
    }
  }

  /** The `k` low digits of `n` depend only on `n` modulo `10^k`. */
  lemma {:induction false} LowDigitsMod(n: nat, m: nat, k: nat)
    requires n % Pow10(k) == m % Pow10(k)
    ensures LowDigits(n, k) == LowDigits(m, k)
  {
    if k > 0 {
      DivModStep(n, Pow10(k - 1));
      DivModStep(m, Pow10(k - 1));
      LowDigitsMod(n / 10, m / 10, k - 1);
    }
  }
}
