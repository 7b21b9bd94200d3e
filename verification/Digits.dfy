/** Decimal digits: how Rust prints and pads a non-negative integer, and what a digit string is worth. */
module Digits {
  predicate IsDigit(c: char) { '0' <= c <= '9' }

  predicate AllDigits(s: string) {
    forall i :: 0 <= i < |s| ==> IsDigit(s[i])
  }

  function DigitValue(c: char): (v: nat)
    requires IsDigit(c)
    ensures v < 10
  {
    c as int - '0' as int
  }

  function DigitChar(d: nat): (c: char)
    requires d < 10
    ensures IsDigit(c) && DigitValue(c) == d
  {
    (d + '0' as int) as char
  }

  function Pow10(k: nat): (p: nat)
    ensures p > 0
  {
    if k == 0 then 1 else 10 * Pow10(k - 1)
  }

  /** `n.to_string()`. */
  function ToText(n: nat): (s: string)
    ensures s != "" && AllDigits(s)
  {
    if n < 10 then [DigitChar(n)] else ToText(n / 10) + [DigitChar(n % 10)]
  }

  function NumberOf(s: string): nat
    requires AllDigits(s)
  {
    if s == "" then 0 else 10 * NumberOf(s[..|s| - 1]) + DigitValue(s[|s| - 1])
  }

  function Zeros(k: nat): (s: string)
    ensures |s| == k && AllDigits(s)
    ensures forall i :: 0 <= i < k ==> s[i] == '0'
  {
    if k == 0 then "" else Zeros(k - 1) + "0"
  }

  /** `{:0w$}` for a non-negative integer. */
  function Padded(n: nat, w: nat): (s: string)
    ensures AllDigits(s) && |s| >= w
  {
    var s := ToText(n);
    if |s| < w then Zeros(w - |s|) + s else s
  }

  lemma {:induction false} Pow10Sum(a: nat, b: nat)
    ensures Pow10(a + b) == Pow10(a) * Pow10(b)
  {
    if a > 0 {
      Pow10Sum(a - 1, b);
      assert 10 * Pow10(a - 1) * Pow10(b) == Pow10(a) * Pow10(b);
    }
  }

  lemma {:induction false} DigitsHoldNo(s: string, c: char)
    requires AllDigits(s) && !IsDigit(c)
    ensures c !in s
  {}

  lemma {:induction false} ValueSnoc(s: string, c: char)
    requires AllDigits(s) && IsDigit(c)
    ensures NumberOf(s + [c]) == 10 * NumberOf(s) + DigitValue(c)
  {
    assert (s + [c])[..|s|] == s;
  }

  lemma {:induction false} ValueOfText(n: nat)
    ensures NumberOf(ToText(n)) == n
  {
    if n >= 10 {
      ValueOfText(n / 10);
      ValueSnoc(ToText(n / 10), DigitChar(n % 10));
    } else {
      ValueSnoc("", DigitChar(n));
      assert "" + [DigitChar(n)] == ToText(n);
    }
  }

  lemma {:induction false} ShiftOnce(v: int, p: int)
    ensures 10 * (v * p) == v * (10 * p)
  {}

  lemma {:induction false} ValueAppend(s: string, t: string)
    requires AllDigits(s) && AllDigits(t)
    ensures AllDigits(s + t) && NumberOf(s + t) == NumberOf(s) * Pow10(|t|) + NumberOf(t)
  {
    if t == "" {
      assert s + t == s;
    } else {
      var u, c := t[..|t| - 1], t[|t| - 1];
      ValueAppend(s, u);
      ValueSnoc(s + u, c);
      assert s + t == (s + u) + [c];
      ShiftOnce(NumberOf(s), Pow10(|u|));
    }
  }

  lemma {:induction false} ValueBound(s: string)
    requires AllDigits(s)
    ensures NumberOf(s) < Pow10(|s|)
  {
    if s != "" {
      ValueBound(s[..|s| - 1]);
    }
  }

  lemma {:induction false} ValueOfZeros(k: nat)
    ensures NumberOf(Zeros(k)) == 0
  {
    if k > 0 {
      ValueOfZeros(k - 1);
      ValueSnoc(Zeros(k - 1), '0');
    }
  }

  lemma {:induction false} LeadingZeros(k: nat, s: string)
    requires AllDigits(s)
    ensures AllDigits(Zeros(k) + s) && NumberOf(Zeros(k) + s) == NumberOf(s)
  {
    ValueAppend(Zeros(k), s);
    ValueOfZeros(k);
    assert 0 * Pow10(|s|) == 0;
  }

  lemma {:induction false} TrailingZeros(s: string, k: nat)
    requires AllDigits(s)
    ensures AllDigits(s + Zeros(k)) && NumberOf(s + Zeros(k)) == NumberOf(s) * Pow10(k)
  {
    ValueAppend(s, Zeros(k));
    ValueOfZeros(k);
  }

  /** The text of a positive number starts with a non-zero digit, so its length is its magnitude. */
  lemma {:induction false} TextLength(n: nat)
    requires n > 0
    ensures Pow10(|ToText(n)| - 1) <= n < Pow10(|ToText(n)|)
    ensures ToText(n)[0] != '0'
  {
    if n >= 10 {
      TextLength(n / 10);
      assert Pow10(|ToText(n)| - 1) == 10 * Pow10(|ToText(n / 10)| - 1);
    } else {
      assert Pow10(1) == 10 * Pow10(0);
    }
  }

  lemma {:induction false} Pow10Monotone(a: nat, b: nat)
    requires a <= b
    ensures Pow10(a) <= Pow10(b)
  {
    if a < b {
      Pow10Monotone(a, b - 1);
    }
  }

  /** A number below 10^w is printed on at most w digits. */
  lemma {:induction false} TextFits(n: nat, w: nat)
    requires w > 0 && n < Pow10(w)
    ensures |ToText(n)| <= w
  {
    if n > 0 {
      TextLength(n);
      if |ToText(n)| > w {
        Pow10Monotone(w, |ToText(n)| - 1);
      }
    }
  }

  lemma {:induction false} PaddedIsExact(n: nat, w: nat)
    requires w > 0
    ensures NumberOf(Padded(n, w)) == n
    ensures n < Pow10(w) ==> |Padded(n, w)| == w
  {
    var s := ToText(n);
    ValueOfText(n);
    if n < Pow10(w) {
      TextFits(n, w);
    }
    if |s| < w {
      LeadingZeros(w - |s|, s);
    }
  }

  /** Digit strings of one length that denote one number are one. */
  lemma {:induction false} SameDigits(a: string, b: string)
    requires AllDigits(a) && AllDigits(b) && |a| == |b| && NumberOf(a) == NumberOf(b)
    ensures a == b
  {
    hide DigitValue, NumberOf;
    if a != "" {
      var n := |a| - 1;
      ButLastDigit(a);
      ButLastDigit(b);
      SameLastDigit(NumberOf(a[..n]), a[n], NumberOf(b[..n]), b[n]);
      SameDigits(a[..n], b[..n]);
      assert a == a[..n] + [a[n]] && b == b[..n] + [b[n]];
    }
  }

  lemma {:induction false} ButLastDigit(a: string)
    requires AllDigits(a) && a != ""
    ensures AllDigits(a[..|a| - 1]) && NumberOf(a) == 10 * NumberOf(a[..|a| - 1]) + DigitValue(a[|a| - 1])
  {
    hide DigitValue;
  }

  lemma {:induction false} SameLastDigit(x: nat, c: char, y: nat, d: char)
    requires IsDigit(c) && IsDigit(d) && 10 * x + DigitValue(c) == 10 * y + DigitValue(d)
    ensures x == y && c == d
  {}

  // ----- order

  datatype Ordering = Less | Equal | Greater {
    function Reverse(): Ordering {
      match this
      case Less => Greater
      case Equal => Equal
      case Greater => Less
    }
  }

  function CompareInts(a: int, b: int): Ordering {
    if a < b then Less else if a > b then Greater else Equal
  }

  /** Text order. */
  function CompareText(a: string, b: string): Ordering {
    if a == "" && b == "" then Equal
    else if a == "" then Less
    else if b == "" then Greater
    else if a[0] < b[0] then Less
    else if a[0] > b[0] then Greater
    else CompareText(a[1..], b[1..])
  }

  lemma {:induction false} ValueCons(s: string)
    requires AllDigits(s) && s != ""
    ensures AllDigits(s[1..]) && NumberOf(s) == DigitValue(s[0]) * Pow10(|s| - 1) + NumberOf(s[1..])
  {
    assert s == [s[0]] + s[1..];
    ValueAppend([s[0]], s[1..]);
    ValueSnoc("", s[0]);
    assert "" + [s[0]] == [s[0]];
  }

  /** On digit strings of equal length text order is numeric order. */
  lemma {:induction false} CompareDigits(a: string, b: string)
    requires AllDigits(a) && AllDigits(b) && |a| == |b|
    ensures CompareText(a, b) == CompareInts(NumberOf(a), NumberOf(b))
  {
    hide NumberOf, Pow10;
    if a == "" {
      assert a == b;
    } else {
      ValueCons(a);
      ValueCons(b);
      ValueBound(a[1..]);
      ValueBound(b[1..]);
      LeadingDigitDecides(DigitValue(a[0]), DigitValue(b[0]), Pow10(|a| - 1), NumberOf(a[1..]), NumberOf(b[1..]));
      if a[0] == b[0] {
        CompareDigits(a[1..], b[1..]);
      }
    }
  }

  lemma {:induction false} LeadingDigitDecides(x: nat, y: nat, p: nat, u: nat, v: nat)
    requires u < p && v < p
    ensures x < y ==> x * p + u < y * p + v
    ensures x > y ==> x * p + u > y * p + v
  {
    if x < y {
      assert (x + 1) * p <= y * p;
    } else if x > y {
      assert (y + 1) * p <= x * p;
    }
  }
}
