/** Decimal numbers as std::format writes them and std::from_chars reads them. */
module Decimal {
  import opened Wrappers

  predicate IsDigit(c: char) {
    '0' <= c <= '9'
  }

  function DigitOf(c: char): (d: nat)
    requires IsDigit(c)
    ensures d < 10
  {
    c as int - '0' as int
  }

  function DigitChar(d: nat): (c: char)
    requires d < 10
    ensures IsDigit(c) && DigitOf(c) == d
  {
    (d + '0' as int) as char
  }

  predicate AllDigits(s: string) {
    forall i :: 0 <= i < |s| ==> IsDigit(s[i])
  }

  /** std::format("{}", n) for an unsigned number. */
  function Format(n: nat): (s: string)
    ensures s != "" && AllDigits(s)
  {
    if n < 10 then [DigitChar(n)] else Format(n / 10) + [DigitChar(n % 10)]
  }

  function Magnitude(s: string): nat
    requires AllDigits(s)
  {
    if s == "" then 0 else Magnitude(s[..|s| - 1]) * 10 + DigitOf(s[|s| - 1])
  }

  const INT64_MAX: int := 0x7fff_ffff_ffff_ffff

  /** std::from_chars into a std::int64_t, all of the input consumed. */
  function ParseInteger(s: string): Option<int> {
    if s != "" && s[0] == '-' then
      if |s| > 1 && AllDigits(s[1..]) && Magnitude(s[1..]) <= INT64_MAX + 1 then Some(0 - Magnitude(s[1..])) else None
    else
      if s != "" && AllDigits(s) && Magnitude(s) <= INT64_MAX then Some(Magnitude(s)) else None
  }

  lemma {:induction false} MagnitudeOfFormat(n: nat)
    ensures Magnitude(Format(n)) == n
  {
    if n >= 10 {
      MagnitudeOfFormat(n / 10);
      assert Format(n)[..|Format(n)| - 1] == Format(n / 10);
    } else {
      assert Format(n)[..0] == "";
    }
  }

  /** Reading back what was written, for every number that fits. */
  lemma ParseFormat(n: nat)
    ensures ParseInteger(Format(n)) == if n <= INT64_MAX then Some(n) else None
  {
    MagnitudeOfFormat(n);
    assert IsDigit(Format(n)[0]);
  }

  lemma FormatInjective(m: nat, n: nat)
    ensures Format(m) == Format(n) ==> m == n
  {
    MagnitudeOfFormat(m);
    MagnitudeOfFormat(n);
  }

  /** The negative half, which goes one further. */
  lemma ParseNegative(n: nat)
    ensures ParseInteger("-" + Format(n)) == if n <= INT64_MAX + 1 then Some(0 - n) else None
  {
    MagnitudeOfFormat(n);
    assert ("-" + Format(n))[1..] == Format(n);
  }

  /** Anything but digits, after at most one minus sign, is no number. */
  lemma NoNumber(s: string)
    requires s == "" || s == "-" || exists i :: 0 <= i < |s| && !('0' <= s[i] <= '9') && !(i == 0 && s[0] == '-')
    ensures ParseInteger(s) == None
  {
    if i :| 0 <= i < |s| && !('0' <= s[i] <= '9') && !(i == 0 && s[0] == '-') {
      assert s[0] == '-' ==> s[1..][i - 1] == s[i];
    }
  }

  lemma OneDigit(d: nat)
    requires d < 10
    ensures Format(d) == ["0123456789"[d]]
  {
  }

  // ----- digits

  function Power10(k: nat): (p: nat)
    ensures p > 0
  {
    if k == 0 then 1 else 10 * Power10(k - 1)
  }

  lemma {:induction false} Power10Adds(a: nat, b: nat)
    ensures Power10(a + b) == Power10(a) * Power10(b)
  {
    if a > 0 {
      Power10Adds(a - 1, b);
      assert Power10(a + b) == 10 * (Power10(a - 1) * Power10(b));
    }
  }

  lemma DigitText(d: nat)
    requires d < 10
    ensures DigitChar(d) == "0123456789"[d]
  {
  }

  /** The digit for 10^i stands i places from the end, and no number starts with a zero but zero itself. */
  lemma {:induction false} FormatDigit(n: nat, i: nat)
    requires i < |Format(n)|
    ensures Format(n)[|Format(n)| - 1 - i] == "0123456789"[n / Power10(i) % 10]
    ensures n > 0 ==> Format(n)[0] != '0'
  {
    if n < 10 {
      DigitText(n);
      assert n / 1 == n;
    } else {
      DigitText(n % 10);
      var higher := Format(n / 10);
      assert Format(n) == higher + [DigitChar(n % 10)];
      FormatDigit(n / 10, if i > 0 then i - 1 else 0);
      if i > 0 {
        DividedTwice(n, Power10(i - 1));
      } else {
        assert n / 1 == n;
      }
    }
  }

  lemma DividedTwice(n: nat, p: nat)
    requires p > 0
    ensures n / 10 / p == n / (10 * p)
  {
    var (q, r) := (n / (10 * p), n % (10 * p));
    assert n == 10 * p * q + r;
    TensApart(p * q, r);
    Quotient(n / 10, p, q, r / 10);
  }

  lemma TensApart(a: nat, r: nat)
    ensures (10 * a + r) / 10 == a + r / 10
  {
  }

  lemma Quotient(n: nat, p: nat, q: nat, r: nat)
    requires n == p * q + r && r < p
    ensures n / p == q
  {
    var d := n / p - q;
    assert n == p * (n / p) + n % p;
    assert p * d == r - n % p;
    assert d > 0 ==> p * d >= p;
    assert d < 0 ==> p * d <= 0 - p;
  }

  /** The first digit counts as many tens as digits follow. */
  lemma {:induction false} MagnitudeFront(c: char, s: string)
    requires IsDigit(c) && AllDigits(s)
    ensures AllDigits([c] + s)
    ensures Magnitude([c] + s) == (c as int - 48) * Power10(|s|) + Magnitude(s)
  {
    if s == "" {
      assert [c] + s == [c] && [c][..0] == "";
      assert Magnitude("") == 0;
    } else {
      var n := |s| - 1;
      MagnitudeFront(c, s[..n]);
      assert ([c] + s)[..n + 1] == [c] + s[..n];
      assert ((c as int - 48) * Power10(n)) * 10 == (c as int - 48) * Power10(n + 1);
    }
  }
}
