/** The C library functions the demos use on text: decimal conversion (`%lu`) and `strncmp`. */
module CStrings {
  import opened Words

  const NUL: char := '\0'

  // ----- Decimal conversion -----

  function Digit(d: nat): (c: char)
    requires d < 10
    ensures '0' <= c <= '9'
  {
    ('0' as int + d) as char
  }

  function Decimal(n: nat): (s: string)
    ensures |s| >= 1
    ensures forall i: nat :: i < |s| ==> '0' <= s[i] <= '9'
  {
    if n < 10 then [Digit(n)] else Decimal(n / 10) + [Digit(n % 10)]
  }

  function Value(s: string): int {
    if s == [] then 0 else 10 * Value(s[..|s| - 1]) + (s[|s| - 1] as int - '0' as int)
  }

  /** Reading a printed number back returns it. */
  lemma {:induction false} ValueOfDecimal(n: nat)
    ensures Value(Decimal(n)) == n
  {
    var s := Decimal(n);
    if n < 10 {
      assert s[..|s| - 1] == [];
    } else {
      ValueOfDecimal(n / 10);
      assert s[..|s| - 1] == Decimal(n / 10);
    }
  }

  lemma DecimalInjective(m: nat, n: nat)
    requires Decimal(m) == Decimal(n)
    ensures m == n
  {
    ValueOfDecimal(m);
    ValueOfDecimal(n);
  }

  function Pow10(k: nat): (p: nat)
    ensures p >= 1
  {
    if k == 0 then 1 else 10 * Pow10(k - 1)
  }

  lemma {:induction false} DecimalLength(n: nat, k: nat)
    requires k >= 1 && n < Pow10(k)
    ensures |Decimal(n)| <= k
  {
    if n < 10 {
    } else {
      assert Pow10(1) == 10 * Pow10(0);
      DecimalLength(n / 10, k - 1);
    }
  }

  /** Character `i` from the end. */
  function FromEnd(s: string, i: nat): char
    requires i < |s|
  {
    s[|s| - 1 - i]
  }

  lemma FromEndSnoc(s: string, c: char, i: nat)
    requires i <= |s|
    ensures FromEnd(s + [c], i) == if i == 0 then c else FromEnd(s, i - 1)
  {
  }

  function Place(n: nat, i: nat): (d: nat)
    ensures d < 10
  {
    if i == 0 then n % 10 else Place(n / 10, i - 1)
  }

  lemma {:induction false} PlaceIsDigit(n: nat, i: nat)
    ensures Place(n, i) == n / Pow10(i) % 10
  {
    if i == 0 {
    } else {
      PlaceIsDigit(n / 10, i - 1);
      DivByProduct(n, 10, Pow10(i - 1));
    }
  }

  lemma {:induction false} DecimalPlaces(n: nat, i: nat)
    requires i < |Decimal(n)|
    ensures FromEnd(Decimal(n), i) == Digit(Place(n, i))
  {
    if n < 10 {
      assert i == 0;
    } else {
      FromEndSnoc(Decimal(n / 10), Digit(n % 10), i);
      if i == 0 {
      } else {
        DecimalPlaces(n / 10, i - 1);
      }
    }
  }

  /** Counted from the end, each character of a printed number is its decimal digit. */
  lemma DecimalDigits(n: nat, i: nat)
    requires i < |Decimal(n)|
    ensures Decimal(n)[|Decimal(n)| - 1 - i] as int == 48 + n / Pow10(i) % 10
  {
    DecimalPlaces(n, i);
    PlaceIsDigit(n, i);
  }

  /** No printed number starts with a zero but zero itself. */
  lemma {:induction false} NoLeadingZero(n: nat)
    ensures Decimal(n)[0] == '0' <==> n == 0
  {
    if n < 10 {
    } else {
      NoLeadingZero(n / 10);
    }
  }

  lemma {:induction false} ValueBelow(s: string)
    requires forall i: nat :: i < |s| ==> '0' <= s[i] <= '9'
    ensures 0 <= Value(s) < Pow10(|s|)
  {
    if s == [] {
    } else {
      ValueBelow(s[..|s| - 1]);
    }
  }

  /** No string of digits with the same value is shorter than the printed number. */
  lemma DecimalShortest(s: string)
    requires s != [] && forall i: nat :: i < |s| ==> '0' <= s[i] <= '9'
    ensures Value(s) >= 0 && |Decimal(Value(s))| <= |s|
  {
    ValueBelow(s);
    DecimalLength(Value(s), |s|);
  }

  /** A 32-bit number prints in at most ten digits. */
  lemma WordDecimalLength(n: nat)
    requires n < 0x1_0000_0000
    ensures |Decimal(n)| <= 10
  {
    assert Pow10(5) == 100_000;
    assert Pow10(10) == 10_000_000_000;
    DecimalLength(n, 10);
  }

  // ----- strncmp -----

  /** `strncmp( a, b, n ) == 0` */
  predicate StrNCmpZero(a: string, b: string, n: nat)
    requires n <= |a| && n <= |b|
  {
    if n == 0 then true
    else if a[0] != b[0] then false
    else if a[0] == NUL then true
    else StrNCmpZero(a[1..], b[1..], n - 1)
  }

  ghost predicate AgreeUpTo(a: string, b: string, n: nat)
    requires n <= |a| && n <= |b|
  {
    forall i: nat :: i < n ==> a[i] == b[i]
  }

  /** Compared with a string whose first NUL is at `h`, the result depends on exactly the first
      min(n, h + 1) characters. */
  lemma {:induction false} StrNCmpWindow(a: string, b: string, n: nat, h: nat)
    requires n <= |a| && n <= |b|
    requires forall i: nat :: i < h && i < n ==> b[i] != NUL
    requires h < n ==> b[h] == NUL
    ensures StrNCmpZero(a, b, n) <==> AgreeUpTo(a, b, if n <= h then n else h + 1)
    decreases n
  {
    var window := if n <= h then n else h + 1;
    if n == 0 || h == 0 || a[0] != b[0] {
    } else {
      assert b[0] != NUL;
      assert forall i: nat :: i < h - 1 && i < n - 1 ==> b[1..][i] == b[i + 1];
      StrNCmpWindow(a[1..], b[1..], n - 1, h - 1);
      assert AgreeUpTo(a, b, window) ==> AgreeUpTo(a[1..], b[1..], window - 1);
      if AgreeUpTo(a[1..], b[1..], window - 1) {
        forall i: nat | i < window
          ensures a[i] == b[i]
        {
          if i > 0 {
            assert a[1..][i - 1] == b[1..][i - 1];
          }
        }
      }
    }
  }
}
