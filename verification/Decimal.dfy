/** Decimal text: printing, padding, trimming, splitting and parsing as the standard library does. */
module Decimal {
  import opened Prelude

  function Pow10(n: nat): (p: nat)
    ensures p > 0
  {
    if n == 0 then 1 else 10 * Pow10(n - 1)
  }

  /** `v` followed by `n` zeros. */
  function Shift(v: nat, n: nat): nat {
    if n == 0 then v else 10 * Shift(v, n - 1)
  }

  function Digit(d: nat): char
    requires d < 10
  {
    '0' + d as char
  }

  predicate IsDigit(c: char) { '0' <= c <= '9' }

  predicate AllDigits(s: string) { forall i :: 0 <= i < |s| ==> IsDigit(s[i]) }

  function Print(n: nat): (s: string)
    ensures |s| > 0 && AllDigits(s)
  {
    if n < 10 then [Digit(n)] else Print(n / 10) + [Digit(n % 10)]
  }

  function Value(s: string): nat
    requires AllDigits(s)
  {
    if |s| == 0 then 0 else 10 * Value(s[..|s| - 1]) + (s[|s| - 1] - '0') as int
  }

  /** Unsigned parsing of text below `bound`: digits, after at most one leading plus. */
  function ParseUnsigned(s: string, bound: nat): Option<nat> {
    var digits := if |s| > 1 && s[0] == '+' then s[1..] else s;
    if |digits| > 0 && AllDigits(digits) && Value(digits) < bound then Some(Value(digits)) else None
  }

  function Zeros(n: nat): (s: string)
    ensures |s| == n && AllDigits(s)
  {
    seq(n, _ => '0')
  }

  function PadLeft(s: string, width: nat): string {
    if |s| >= width then s else Zeros(width - |s|) + s
  }

  function PadRight(s: string, width: nat): string {
    if |s| >= width then s else s + Zeros(width - |s|)
  }

  function TrimEndZeros(s: string): (t: string)
    ensures t <= s
  {
    if |s| > 0 && s[|s| - 1] == '0' then TrimEndZeros(s[..|s| - 1]) else s
  }

  /** The parts between separators; there is always at least one. */
  function Split(s: string, separator: char): (parts: seq<string>)
    ensures |parts| > 0
  {
    if |s| == 0 then [""]
    else
      var rest := Split(s[1..], separator);
      if s[0] == separator then [""] + rest else [[s[0]] + rest[0]] + rest[1..]
  }

  // ----- Values -----

  lemma {:induction false} ValueSnoc(s: string, c: char)
    requires AllDigits(s) && IsDigit(c)
    ensures AllDigits(s + [c]) && Value(s + [c]) == 10 * Value(s) + (c - '0') as int
  {
    assert (s + [c])[..|s|] == s;
  }

  lemma {:induction false} ValueOfPrint(n: nat)
    ensures Value(Print(n)) == n
  {
    if n < 10 {
      ValueSnoc("", Digit(n));
      assert "" + [Digit(n)] == [Digit(n)];
    } else {
      ValueOfPrint(n / 10);
      ValueSnoc(Print(n / 10), Digit(n % 10));
    }
  }

  lemma {:induction false} ShiftIsProduct(v: nat, n: nat)
    ensures Shift(v, n) == v * Pow10(n)
  {
    if n > 0 {
      ShiftIsProduct(v, n - 1);
      assert v * Pow10(n) == 10 * (v * Pow10(n - 1));
    }
  }

  lemma {:induction false} ShiftTwice(v: nat, m: nat, n: nat)
    ensures Shift(Shift(v, m), n) == Shift(v, m + n)
  {
    if n > 0 {
      ShiftTwice(v, m, n - 1);
    }
  }

  lemma {:induction false} ShiftAdds(v: nat, w: nat, n: nat)
    ensures Shift(v + w, n) == Shift(v, n) + Shift(w, n)
  {
    if n > 0 {
      ShiftAdds(v, w, n - 1);
    }
  }

  lemma {:induction false} Pow10IsShift(n: nat)
    ensures Pow10(n) == Shift(1, n)
  {
    if n > 0 {
      Pow10IsShift(n - 1);
    }
  }

  lemma {:induction false} ShiftOfZero(n: nat)
    ensures Shift(0, n) == 0
  {
    if n > 0 {
      ShiftOfZero(n - 1);
    }
  }

  lemma {:induction false} ShiftMonotone(v: nat, w: nat, n: nat)
    requires v <= w
    ensures v <= Shift(v, n) <= Shift(w, n)
  {
    if n > 0 {
      ShiftMonotone(v, w, n - 1);
    }
  }

  lemma {:induction false} ValueConcat(s: string, t: string)
    requires AllDigits(s) && AllDigits(t)
    ensures AllDigits(s + t) && Value(s + t) == Shift(Value(s), |t|) + Value(t)
  {
    if |t| == 0 {
      assert s + t == s;
    } else {
      var front, last := t[..|t| - 1], t[|t| - 1];
      ValueConcat(s, front);
      assert s + t == (s + front) + [last];
      ValueSnoc(s + front, last);
    }
  }

  lemma {:induction false} ValueBound(s: string)
    requires AllDigits(s)
    ensures Value(s) < Pow10(|s|)
  {
    if |s| > 0 {
      ValueBound(s[..|s| - 1]);
    }
  }

  lemma {:induction false} ValueOfZeros(n: nat)
    ensures Value(Zeros(n)) == 0
  {
    if n > 0 {
      ValueOfZeros(n - 1);
      assert Zeros(n)[..n - 1] == Zeros(n - 1);
    }
  }

  lemma {:induction false} ValueOfPadLeft(s: string, width: nat)
    requires AllDigits(s)
    ensures AllDigits(PadLeft(s, width)) && Value(PadLeft(s, width)) == Value(s)
  {
    if |s| < width {
      ValueConcat(Zeros(width - |s|), s);
      ValueOfZeros(width - |s|);
      ShiftOfZero(|s|);
    }
  }

  lemma {:induction false} ValueOfPadRight(s: string, width: nat)
    requires AllDigits(s) && |s| <= width
    ensures AllDigits(PadRight(s, width)) && |PadRight(s, width)| == width
    ensures Value(PadRight(s, width)) == Shift(Value(s), width - |s|)
  {
    ValueConcat(s, Zeros(width - |s|));
    ValueOfZeros(width - |s|);
    assert s + Zeros(0) == s;
  }

  lemma {:induction false} PrintHasNoLeadingZero(n: nat)
    ensures |Print(n)| > 1 ==> Print(n)[0] != '0'
    ensures n > 0 ==> Print(n)[0] != '0'
  {
    if n >= 10 {
      PrintHasNoLeadingZero(n / 10);
    }
  }

  lemma {:induction false} NothingLeftToTrim(s: string)
    ensures var t := TrimEndZeros(s); |t| > 0 ==> t[|t| - 1] != '0'
  {
    if |s| > 0 && s[|s| - 1] == '0' {
      NothingLeftToTrim(s[..|s| - 1]);
    }
  }

  lemma {:induction false} PrintLength(n: nat, k: nat)
    requires n < Pow10(k) && k > 0
    ensures |Print(n)| <= k
  {
    if n >= 10 {
      PrintLength(n / 10, k - 1);
    }
  }

  /** Only zeros are trimmed, and padding puts them back. */
  lemma {:induction false} TrimThenPad(s: string)
    ensures s == PadRight(TrimEndZeros(s), |s|)
  {
    if |s| > 0 && s[|s| - 1] == '0' {
      var front := s[..|s| - 1];
      TrimThenPad(front);
      var t := TrimEndZeros(front);
      assert s == front + "0";
      assert front == t + Zeros(|front| - |t|);
      assert Zeros(|front| - |t|) + "0" == Zeros(|s| - |t|);
      assert s == t + (Zeros(|front| - |t|) + "0");
    } else {
      assert TrimEndZeros(s) == s;
    }
  }

  lemma {:induction false} ParsePlain(s: string, bound: nat)
    requires '+' !in s
    ensures ParseUnsigned(s, bound) ==
      if |s| > 0 && AllDigits(s) && Value(s) < bound then Some(Value(s)) else None
  {
  }

  function Sign(plus: bool): string { if plus then "+" else "" }

  lemma {:induction false} ParseSigned(plus: bool, digits: string, bound: nat)
    requires AllDigits(digits) && |digits| > 0
    ensures ParseUnsigned(Sign(plus) + digits, bound) == if Value(digits) < bound then Some(Value(digits)) else None
  {
    var s := Sign(plus) + digits;
    if plus {
      assert s[1..] == digits;
    } else {
      assert s == digits;
    }
  }

  /** Whatever parses is digits after at most one plus sign. */
  lemma {:induction false} ParsedText(s: string, bound: nat) returns (plus: bool, digits: string)
    requires ParseUnsigned(s, bound).Some?
    ensures s == Sign(plus) + digits && AllDigits(digits) && |digits| > 0
    ensures ParseUnsigned(s, bound) == Some(Value(digits)) && Value(digits) < bound
  {
    plus := |s| > 1 && s[0] == '+';
    digits := if plus then s[1..] else s;
  }

  lemma {:induction false} DigitsHaveNoSign(s: string, c: char)
    requires AllDigits(s) && !IsDigit(c)
    ensures c !in s
  {
  }

  lemma {:induction false} ParseOfPrint(n: nat, bound: nat)
    ensures ParseUnsigned(Print(n), bound) == if n < bound then Some(n) else None
  {
    ValueOfPrint(n);
    DigitsHaveNoSign(Print(n), '+');
    ParsePlain(Print(n), bound);
  }

  // ----- Division by powers of ten -----

  function DivPow10(v: nat, n: nat): (q: nat)
    ensures q <= Shift(q, n) <= v < Shift(q, n) + Pow10(n)
  {
    QuotientNonNegative(v, Pow10(n));
    ShiftIsProduct(v / Pow10(n), n);
    ShiftMonotone(v / Pow10(n), v / Pow10(n), n);
    v / Pow10(n)
  }

  function ModPow10(v: nat, n: nat): (r: nat)
    ensures r < Pow10(n) && v == Shift(DivPow10(v, n), n) + r
  {
    ShiftIsProduct(DivPow10(v, n), n);
    v % Pow10(n)
  }

  lemma {:induction false} QuotientNonNegative(v: nat, d: int)
    requires d > 0
    ensures v / d >= 0
  {
  }

  // ----- Splitting -----

  lemma {:induction false} SplitNone(s: string, c: char)
    requires c !in s
    ensures Split(s, c) == [s]
  {
    if |s| > 0 {
      SplitNone(s[1..], c);
      assert [s[0]] + s[1..] == s;
    }
  }

  lemma {:induction false} SplitAt(a: string, b: string, c: char)
    requires c !in a
    ensures Split(a + [c] + b, c) == [a] + Split(b, c)
  {
    var s := a + [c] + b;
    if |a| == 0 {
      assert s[1..] == b;
    } else {
      assert s[1..] == a[1..] + [c] + b;
      SplitAt(a[1..], b, c);
      assert [a[0]] + a[1..] == a;
    }
  }

  lemma {:induction false} SplitFirst(s: string, c: char)
    requires |s| > 0
    ensures
      var rest := Split(s[1..], c);
      Split(s, c) == if s[0] == c then [""] + rest else [[s[0]] + rest[0]] + rest[1..]
  {
  }

  /** Reading the parts back: one part means no separator, two parts mean exactly one. */
  lemma {:induction false} SplitInverts(s: string, c: char)
    ensures c !in Split(s, c)[0]
    ensures |Split(s, c)| == 1 ==> Split(s, c)[0] == s
    ensures |Split(s, c)| == 2 ==> s == Split(s, c)[0] + [c] + Split(s, c)[1] && c !in Split(s, c)[1]
  {
    hide Split;
    if |s| > 0 {
      SplitFirst(s, c);
      SplitInverts(s[1..], c);
      assert s == [s[0]] + s[1..];
      var rest := Split(s[1..], c);
      if s[0] == c {
        if |rest| == 1 {
          assert s == "" + [c] + s[1..];
        }
      } else if |rest| == 2 {
        assert s == ([s[0]] + rest[0]) + [c] + rest[1];
      }
    } else {
      SplitNone(s, c);
    }
  }
}
