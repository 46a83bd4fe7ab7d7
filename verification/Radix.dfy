/** Numbers written in a base, as strconv and encoding/hex read and write them. */
module Radix {
  import opened Json

  const DIGITS := "0123456789abcdef"

  function DigitOf(c: char): (d: Option<nat>)
    ensures d.Some? ==> d.value < 16
  {
    if '0' <= c <= '9' then Some((c - '0') as nat)
    else if 'a' <= c <= 'f' then Some((c - 'a') as nat + 10)
    else if 'A' <= c <= 'F' then Some((c - 'A') as nat + 10)
    else None
  }

  function LowerChar(c: char): char {
    if 'A' <= c <= 'F' then c - 'A' + 'a' else c
  }

  /** The hexadecimal letters in lower case. */
  function Lower(s: string): string {
    seq(|s|, i requires 0 <= i < |s| => LowerChar(s[i]))
  }

  function Pow(base: nat, e: nat): (p: nat)
    ensures base > 0 ==> p > 0
  {
    if e == 0 then 1 else base * Pow(base, e - 1)
  }

  /** The shortest digits of a number. */
  function Format(n: nat, base: nat): (s: string)
    requires 2 <= base <= 16
    ensures s != ""
    decreases n
  {
    Quotient(n, base);
    if n < base then [DIGITS[n]] else Format(n / base, base) + [DIGITS[n % base]]
  }

  /** The number that a string of digits denotes. */
  function Value(s: string, base: nat): (v: Option<nat>) {
    if s == "" then Some(0)
    else
      var high, low := Value(s[..|s| - 1], base), DigitOf(s[|s| - 1]);
      if high.None? || low.None? || low.value >= base then None else Some(high.value * base + low.value)
  }

  /** No needless leading zero. */
  predicate Minimal(s: string) {
    s != "" && (|s| == 1 || s[0] != '0')
  }

  lemma DigitRoundTrip(d: nat)
    requires d < 16
    ensures DigitOf(DIGITS[d]) == Some(d)
  {
  }

  lemma LowerDigit(c: char)
    requires DigitOf(c).Some?
    ensures LowerChar(c) == DIGITS[DigitOf(c).value]
  {
  }

  lemma {:induction false} FormatMinimal(n: nat, base: nat)
    requires 2 <= base <= 16
    ensures Minimal(Format(n, base)) && (n > 0 ==> Format(n, base)[0] != '0')
    decreases n
  {
    FormatSteps(n, base);
    Quotient(n, base);
    hide Format;
    if n >= base { FormatMinimal(n / base, base); }
  }

  lemma {:induction false} ValueOfFormat(n: nat, base: nat)
    requires 2 <= base <= 16
    ensures Value(Format(n, base), base) == Some(n)
    decreases n
  {
    hide Value, Format, DigitOf;
    FormatSteps(n, base);
    if n < base {
      DigitRoundTrip(n);
      ValueOfSnoc("", DIGITS[n], base);
      assert "" + [DIGITS[n]] == [DIGITS[n]];
    } else {
      Quotient(n, base);
      ValueOfFormat(n / base, base);
      Remultiply(n, base);
      DigitRoundTrip(n % base);
      ValueOfSnoc(Format(n / base, base), DIGITS[n % base], base);
    }
  }

  lemma Remultiply(n: nat, base: nat)
    requires base > 0
    ensures (n / base) * base + n % base == n
  {
  }

  lemma FormatSteps(n: nat, base: nat)
    requires 2 <= base <= 16
    ensures n < base ==> Format(n, base) == [DIGITS[n]]
    ensures n >= base ==> Format(n, base) == Format(n / base, base) + [DIGITS[n % base]]
  {
  }

  lemma ValueOfSnoc(s: string, c: char, base: nat)
    ensures Value("", base) == Some(0)
    ensures Value(s + [c], base) ==
      if Value(s, base).None? || DigitOf(c).None? || DigitOf(c).value >= base then None
      else Some(Value(s, base).value * base + DigitOf(c).value)
  {
  }

  /** Reading ignores the case of hexadecimal letters. */
  lemma {:induction false} ValueOfLower(s: string, base: nat)
    ensures Value(Lower(s), base) == Value(s, base)
    decreases |s|
  {
    if s != "" {
      var init := s[..|s| - 1];
      ValueOfLower(init, base);
      assert Lower(s)[..|s| - 1] == Lower(init);
    }
  }

  /** Two minimal strings with the same value differ at most in case. */
  lemma {:induction false} MinimalIsFormat(s: string, base: nat)
    requires 2 <= base <= 16 && Minimal(s) && Value(s, base).Some?
    ensures Lower(s) == Format(Value(s, base).value, base)
    decreases |s|
  {
    var n := Value(s, base).value;
    var init, last := s[..|s| - 1], s[|s| - 1];
    LowerDigit(last);
    if |s| == 1 {
      assert init == "";
    } else {
      var high, low := Value(init, base).value, DigitOf(last).value;
      MinimalIsFormat(init, base);
      PositiveLead(init, base);
      assert n / base == high && n % base == low && n >= base by { DivMod(high, low, base); }
      assert Lower(s) == Lower(init) + [LowerChar(last)];
    }
  }

  lemma DivMod(high: nat, low: nat, base: nat)
    requires base > 0 && low < base
    ensures (high * base + low) / base == high && (high * base + low) % base == low
    ensures high > 0 ==> high * base + low >= base
  {
    var n := high * base + low;
    var q, r := n / base, n % base;
    assert n == q * base + r;
    hide *;
    NextMultiple(high, q, base);
    NextMultiple(q, high, base);
    NextMultiple(0, high, base);
  }

  lemma Quotient(n: nat, base: nat)
    requires base >= 2
    ensures n >= base ==> 1 <= n / base < n
  {
  }

  lemma NextMultiple(a: int, b: int, base: nat)
    ensures a < b ==> a * base + base <= b * base
  {
    if a < b {
      assert (a + 1) * base <= b * base;
    }
  }

  lemma {:induction false} PositiveLead(s: string, base: nat)
    requires 2 <= base && s != "" && s[0] != '0' && Value(s, base).Some?
    ensures Value(s, base).value > 0
    decreases |s|
  {
    if |s| > 1 {
      PositiveLead(s[..|s| - 1], base);
      DivMod(Value(s[..|s| - 1], base).value, DigitOf(s[|s| - 1]).value, base);
    }
  }

  lemma {:induction false} ValueBound(s: string, base: nat)
    requires base > 0 && Value(s, base).Some?
    ensures Value(s, base).value < Pow(base, |s|)
    decreases |s|
  {
    if s != "" {
      var high := Value(s[..|s| - 1], base).value;
      ValueBound(s[..|s| - 1], base);
      BelowProduct(high, DigitOf(s[|s| - 1]).value, base, Pow(base, |s| - 1));
    }
  }

  lemma BelowProduct(high: nat, low: nat, base: nat, p: nat)
    requires high < p && low < base
    ensures high * base + low < base * p
  {
    assert (high + 1) * base <= p * base;
  }

  lemma QuotientBelow(n: nat, base: nat, p: nat)
    requires base > 0 && n < base * p
    ensures n / base < p
  {
  }

  lemma {:induction false} FormatLength(n: nat, base: nat, k: nat)
    requires 2 <= base <= 16 && 0 < k && n < Pow(base, k)
    ensures |Format(n, base)| <= k
    decreases n
  {
    var p := Pow(base, k - 1);
    assert Pow(base, k) == base * p && (k == 1 ==> p == 1);
    FormatSteps(n, base);
    QuotientBelow(n, base, p);
    Quotient(n, base);
    hide Pow, Format;
    var q := n / base;
    if n >= base {
      FormatLength(q, base, k - 1);
    }
  }

  /** A prefix of digits denotes a number too, and a smaller one. */
  lemma {:induction false} ValuePrefix(s: string, k: nat, base: nat)
    requires k <= |s| && base > 0
    ensures Value(s, base).Some? ==> Value(s[..k], base).Some? && Value(s[..k], base).value <= Value(s, base).value
    decreases |s|
  {
    if k == |s| {
      assert s[..k] == s;
    } else {
      ValuePrefix(s[..|s| - 1], k, base);
      assert s[..|s| - 1][..k] == s[..k];
      if Value(s, base).Some? { GrowsBy(Value(s[..|s| - 1], base).value, base); }
    }
  }

  lemma GrowsBy(high: nat, base: nat)
    requires base > 0
    ensures high <= high * base
  {
  }

  lemma ValueSnoc(s: string, k: nat, base: nat)
    requires k < |s|
    ensures Value(s[..k + 1], base) ==
      if Value(s[..k], base).None? || DigitOf(s[k]).None? || DigitOf(s[k]).value >= base then None
      else Some(Value(s[..k], base).value * base + DigitOf(s[k]).value)
  {
    assert s[..k + 1][..k] == s[..k];
  }
}
