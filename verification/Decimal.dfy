/** Decimal numbers as sprintf prints them and atoi reads them. */
module Decimal {

  function Digit(d: nat): char
    requires d < 10
  {
    ('0' as int + d) as char
  }

  predicate IsDigit(c: char) { '0' <= c <= '9' }

  /** `%d` of a number that is not negative. */
  function Digits(n: nat): (s: string)
    ensures s != [] && forall i | 0 <= i < |s| :: IsDigit(s[i])
  {
    if n < 10 then [Digit(n)] else Digits(n / 10) + [Digit(n % 10)]
  }

  /** `%d`. */
  function Printed(n: int): string {
    if n < 0 then "-" + Digits(-n) else Digits(n)
  }

  /** The number that the leading digits of `s` denote. */
  function Value(s: string): nat {
    if s == [] then 0 else
    var front, c := s[..|s| - 1], s[|s| - 1];
    10 * Value(front) + if IsDigit(c) then c as int - '0' as int else 0
  }

  function DigitRun(s: string): (n: nat)
    ensures n <= |s| && forall i | 0 <= i < n :: IsDigit(s[i])
    ensures n < |s| ==> !IsDigit(s[n])
  {
    if s == [] || !IsDigit(s[0]) then 0 else 1 + DigitRun(s[1..])
  }

  /** `atoi`, for text that does not start with white space and numbers that fit an `int`. */
  function Atoi(s: string): int {
    if s != [] && s[0] == '-' then 0 - Value(s[1..][..DigitRun(s[1..])])
    else Value(s[..DigitRun(s)])
  }

  function AtoiAll(ss: seq<string>): (ns: seq<int>)
    ensures |ns| == |ss| && forall i | 0 <= i < |ss| :: ns[i] == Atoi(ss[i])
  {
    seq(|ss|, i requires 0 <= i < |ss| => Atoi(ss[i]))
  }

  lemma {:induction false} ValueOfDigits(n: nat)
    ensures Value(Digits(n)) == n
  {
    if n >= 10 {
      ValueOfDigits(n / 10);
      assert Digits(n)[..|Digits(n)| - 1] == Digits(n / 10);
    } else {
      assert Digits(n)[..0] == [];
    }
  }

  lemma DigitRunOf(s: string)
    requires forall i | 0 <= i < |s| :: IsDigit(s[i])
    ensures DigitRun(s) == |s|
  {
  }

  /** Reading undoes printing, so different numbers print differently. */
  lemma AtoiPrinted(n: int)
    ensures Atoi(Printed(n)) == n
  {
    var m: nat := if n < 0 then -n else n;
    var d := Digits(m);
    ValueOfDigits(m);
    DigitRunOf(d);
    assert d[..|d|] == d;
    if n < 0 {
      assert Printed(n)[1..] == d;
    }
  }

  function Pow10(k: nat): nat {
    if k == 0 then 1 else 10 * Pow10(k - 1)
  }

  lemma {:induction false} DigitCount(n: nat, k: nat)
    requires k > 0
    ensures |Digits(n)| <= k <==> n < Pow10(k)
    decreases k
  {
    if k == 1 {
      assert Pow10(1) == 10 * Pow10(0);
    } else if n >= 10 {
      DigitCount(n / 10, k - 1);
    } else {
      AtLeastTen(k);
    }
  }

  lemma {:induction false} AtLeastTen(k: nat)
    requires k > 0
    ensures Pow10(k) >= 10
  {
    if k > 1 {
      AtLeastTen(k - 1);
    }
  }

  lemma {:induction false} ValueBelow(s: string)
    ensures Value(s) < Pow10(|s|)
  {
    if s != [] {
      ValueBelow(s[..|s| - 1]);
    }
  }

  /** `snprintf(buf, 10, "%d", n)`: at most nine characters. */
  function Clipped(n: int): (r: string)
    ensures r <= Printed(n) && |r| == if |Printed(n)| < 9 then |Printed(n)| else 9
  {
    var s := Printed(n);
    if |s| <= 9 then s else s[..9]
  }

  lemma Multiple(x: int, d: nat)
    ensures x >= 1 ==> x * d >= d
    ensures x <= -1 ==> x * d <= 0 - d
  {
    if x >= 1 {
      assert (x - 1) * d >= 0;
    } else if x <= -1 {
      assert (-x - 1) * d >= 0;
    }
  }

  lemma Quotient(n: nat, d: nat, q: nat, r: nat)
    requires n == q * d + r && r < d
    ensures n / d == q
  {
    var t := n / d;
    assert n == t * d + n % d;
    assert (t - q) * d == t * d - q * d;
    Multiple(t - q, d);
  }

  lemma DivideTwice(n: nat, d: nat)
    requires d > 0
    ensures n / 10 / d == n / (10 * d)
  {
    var m, q := n / 10, n / 10 / d;
    var r := m - q * d;
    assert 10 * (q * d) == q * (10 * d);
    Quotient(n, 10 * d, q, 10 * r + n % 10);
  }

  lemma {:induction false} Pow10Positive(k: nat)
    ensures Pow10(k) > 0
  {
    if k > 0 {
      Pow10Positive(k - 1);
    }
  }

  /** Every character is a digit of the number, in its place. */
  lemma {:induction false} DigitAt(n: nat, i: nat)
    requires i < |Digits(n)|
    ensures var k := |Digits(n)| - 1 - i;
            Pow10(k) > 0 && Digits(n)[i] == Digit(n / Pow10(k) % 10)
  {
    var k := |Digits(n)| - 1 - i;
    Pow10Positive(k);
    if k > 0 {
      Pow10Positive(k - 1);
      DigitAt(n / 10, i);
      DivideTwice(n, Pow10(k - 1));
      assert Pow10(k) == 10 * Pow10(k - 1);
    } else {
      assert n / Pow10(0) == n;
    }
  }

  /** And the first is not a zero, but for the number zero. */
  lemma {:induction false} NoLeadingZero(n: nat)
    ensures n > 0 ==> Digits(n)[0] != '0'
  {
    if n >= 10 {
      NoLeadingZero(n / 10);
    }
  }

  /** A negative number prints as a minus sign and its absolute value. */
  lemma SignPrinted(n: int)
    ensures n < 0 ==> Printed(n)[0] == '-' && Printed(n)[1..] == Digits(-n)
    ensures n >= 0 ==> Printed(n) == Digits(n)
    ensures Printed(0) == "0"
  {
    if n < 0 {
      assert ("-" + Digits(-n))[1..] == Digits(-n);
    }
  }

  lemma Pow10Values()
    ensures Pow10(8) == 100000000 && Pow10(9) == 1000000000
  {
    assert Pow10(3) == 1000;
    assert Pow10(6) == 1000 * Pow10(3);
  }

  /** The number prints in nine characters. */
  predicate Fits(n: int) { -99999999 <= n <= 999999999 }

  /** A number survives the clipped print exactly when it needs no more than nine characters. */
  lemma ClippedRoundTrip(n: int)
    ensures Atoi(Clipped(n)) == n <==> Fits(n)
    ensures Fits(Atoi(Clipped(n)))
  {
    Pow10Values();
    AtoiPrinted(n);
    var m: nat := if n < 0 then -n else n;
    var d := Digits(m);
    if n < 0 {
      DigitCount(m, 8);
      if |d| > 8 {
        assert Clipped(n)[1..] == d[..8];
        ClippedValue(d, 8);
      }
    } else {
      DigitCount(m, 9);
      if |d| > 9 {
        ClippedValue(d, 9);
        assert d[..9][0] == d[0] && IsDigit(d[0]);
      }
    }
  }

  lemma ClippedValue(d: string, k: nat)
    requires k < |d| && forall i | 0 <= i < |d| :: IsDigit(d[i])
    ensures DigitRun(d[..k]) == k && d[..k][..k] == d[..k] && Value(d[..k]) < Pow10(k)
  {
    DigitRunOf(d[..k]);
    ValueBelow(d[..k]);
  }
}
