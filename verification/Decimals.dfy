/** Integers as decimal text, and how such text compares with other strings. */
module Decimals {
  import opened Issues

  function Digit(d: nat): char
    requires d < 10
  {
    "0123456789"[d]
  }

  function Digits(n: nat): (s: string)
    ensures s != "" && forall i | 0 <= i < |s| :: s[i] in "0123456789"
  {
    if n < 10 then [Digit(n)] else Digits(n / 10) + [Digit(n % 10)]
  }

  function Itoa(n: int): string
  {
    if n < 0 then "-" + Digits(-n) else Digits(n)
  }

  lemma ItoaCharacters(n: int)
    ensures Itoa(n) != "" && (Itoa(n)[0] == '-' <==> n < 0)
    ensures forall i | 0 <= i < |Itoa(n)| :: Itoa(n)[i] in "-0123456789"
  {
    var digits := Digits(if n < 0 then -n else n);
    assert forall i | 0 <= i < |digits| :: digits[i] in "0123456789";
    assert digits[0] in "0123456789";
  }

  lemma DigitInjective(c: nat, d: nat)
    requires c < 10 && d < 10 && Digit(c) == Digit(d)
    ensures c == d
  {
  }

  lemma {:induction false} DigitsInjective(m: nat, n: nat)
    requires Digits(m) == Digits(n)
    ensures m == n
  {
    if m < 10 && n < 10 {
      DigitInjective(m, n);
    } else if m >= 10 && n >= 10 {
      var s, t := Digits(m / 10), Digits(n / 10);
      assert (s + [Digit(m % 10)])[..|s|] == s && (t + [Digit(n % 10)])[..|t|] == t;
      assert (s + [Digit(m % 10)])[|s|] == Digit(m % 10) && (t + [Digit(n % 10)])[|t|] == Digit(n % 10);
      DigitInjective(m % 10, n % 10);
      DigitsInjective(m / 10, n / 10);
    }
  }

  lemma ItoaInjective(m: int, n: int)
    requires Itoa(m) == Itoa(n)
    ensures m == n
  {
    ItoaCharacters(m);
    ItoaCharacters(n);
    if m < 0 {
      Unsigned(m);
      Unsigned(n);
      DigitsInjective(-m, -n);
    } else {
      DigitsInjective(m, n);
    }
  }

  lemma Unsigned(n: int)
    requires n < 0
    ensures Itoa(n)[1..] == Digits(-n)
  {
  }

  /** The number a row of digits stands for. */
  ghost function Value(s: string): int
  {
    if s == "" then 0 else 10 * Value(s[..|s| - 1]) + (s[|s| - 1] as int - '0' as int)
  }

  /** The digits of a number stand for it, and no zero leads. */
  lemma {:induction false} DigitsValue(n: nat)
    ensures Value(Digits(n)) == n && (|Digits(n)| > 1 ==> Digits(n)[0] != '0')
  {
    var d := Digit(n % 10);
    assert d as int - '0' as int == n % 10;
    if n >= 10 {
      var s := Digits(n / 10);
      DigitsValue(n / 10);
      assert (s + [d])[..|s|] == s && Digits(n)[0] == s[0];
      if |s| == 1 {
        assert s[..0] == "" && Value(s) == s[0] as int - '0' as int;
      }
    } else {
      assert [d][..0] == "";
    }
  }

  // ---------- the largest text of a 64-bit integer ----------

  predicate Int64(n: int)
  {
    -0x8000_0000_0000_0000 <= n < 0x8000_0000_0000_0000
  }

  /** Eighteen nines: text is compared from the left, so a longer number need not be larger text. */
  const LARGEST_TEXT: int := 999_999_999_999_999_999

  function Pow10(k: nat): nat
  {
    if k == 0 then 1 else 10 * Pow10(k - 1)
  }

  ghost predicate AllNines(s: string)
  {
    forall i | 0 <= i < |s| :: s[i] == '9'
  }

  lemma {:induction false} NinesText(k: nat)
    requires k > 0
    ensures Pow10(k) > 1 && |Digits(Pow10(k) - 1)| == k && AllNines(Digits(Pow10(k) - 1))
  {
    if k > 1 {
      NinesText(k - 1);
      var n := Pow10(k) - 1;
      assert n / 10 == Pow10(k - 1) - 1 && n % 10 == 9;
      assert Digits(n) == Digits(n / 10) + ['9'];
    } else {
      assert Pow10(1) == 10 * Pow10(0);
      assert Digits(9) == ['9'];
    }
  }

  lemma {:induction false} DigitsLength(n: nat, k: nat)
    requires k > 0 && n < Pow10(k)
    ensures |Digits(n)| <= k
  {
    if n >= 10 {
      assert Pow10(1) == 10;
      DigitsLength(n / 10, k - 1);
    }
  }

  /** Above a row of nines there are, among digits, only longer rows. */
  lemma {:induction false} AboveNines(nines: string, s: string)
    requires AllNines(nines) && Less(nines, s) && forall i | 0 <= i < |s| :: s[i] <= '9'
    ensures |nines| < |s| && s[..|nines|] == nines
  {
    if nines != "" {
      AboveNines(nines[1..], s[1..]);
      assert s == [s[0]] + s[1..] && nines == [nines[0]] + nines[1..];
    }
  }

  lemma LargestIsNines()
    ensures LARGEST_TEXT == Pow10(18) - 1
  {
    assert Pow10(6) == 1_000_000;
    assert Pow10(12) == 1_000_000_000_000;
    assert Pow10(18) == 1_000_000_000_000_000_000;
  }

  /** One digit more than k nines and above them as text: the number begins with the nines. */
  lemma BeginsWithNines(n: nat, k: nat)
    requires k > 0 && n < Pow10(k + 1) && Less(Digits(Pow10(k) - 1), Digits(n))
    ensures n / 10 == Pow10(k) - 1
  {
    NinesText(k);
    var nines := Digits(Pow10(k) - 1);
    AboveNines(nines, Digits(n));
    DigitsLength(n, k + 1);
    assert Digits(n)[..k] == Digits(n / 10);
    DigitsInjective(n / 10, Pow10(k) - 1);
  }

  /** No 64-bit integer is written above the eighteen nines. */
  lemma LargestText(n: int)
    requires Int64(n)
    ensures !Less(Itoa(LARGEST_TEXT), Itoa(n))
  {
    var k := 18;
    LargestIsNines();
    assert Pow10(k + 1) == 10 * Pow10(k);
    NinesText(k);
    if n < 0 {
      ItoaCharacters(n);
    } else if Less(Itoa(LARGEST_TEXT), Itoa(n)) {
      BeginsWithNines(n, k);
    }
  }
}
