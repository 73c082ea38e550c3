/**
Fixed-point token amounts: `format_balance` and `parse_amount` (wallet_core.rs),
`parse_tks_amount` (transfer.rs) and `format_tks` (balance.rs).

Integers are unsigned 128-bit.  Where the source's arithmetic would exceed them unchecked the
outcome is `Overflow`.
*/
module Amounts {
  import opened Prelude
  import opened Decimal

  const WEI_PER_TKS := 1_000_000_000_000_000_000
  const FOUR_DECIMALS := 100_000_000_000_000          // one ten-thousandth of a token

  datatype Checked = Text(text: string) | Overflow

  datatype AmountError =
    | Empty
    | InvalidFormat
    | InvalidWhole
    | AmountOverflow
    | TooManyDecimals
    | InvalidFraction

  function Fraction(frac: nat, decimals: nat): string { TrimEndZeros(PadLeft(Print(frac), decimals)) }

  /** The decimal text of `whole` and `frac` / 10^decimals, without trailing zeros. */
  function Pointed(whole: nat, frac: nat, decimals: nat): string {
    if frac == 0 then Print(whole) else Print(whole) + "." + Fraction(frac, decimals)
  }

  function ParseOrZero(s: string): nat {
    var parsed := ParseUnsigned(s, U128_BOUND);
    if parsed.Some? then parsed.value else 0
  }

  function FormatBalance(raw: string, decimals: nat): Checked {
    var value := ParseOrZero(raw);
    if value == 0 then Text("0")
    else if Pow10(decimals) >= U128_BOUND then Overflow
    else Text(Pointed(DivPow10(value, decimals), ModPow10(value, decimals), decimals))
  }

  function ParseAmount(display: string, decimals: nat): Checked {
    AmountOfParts(Split(display, '.'), decimals)
  }

  function AmountOfParts(parts: seq<string>, decimals: nat): Checked
    requires |parts| > 0
  {
    var whole := ParseOrZero(parts[0]);
    var frac := if |parts| > 1 then ParseOrZero(FirstDigits(parts[1], decimals)) else 0;
    var raw := Shift(whole, decimals) + frac;
    if Pow10(decimals) >= U128_BOUND || raw >= U128_BOUND then Overflow else Text(Print(raw))
  }

  function FirstDigits(s: string, decimals: nat): string {
    PadRight(s, decimals)[..decimals]
  }

  /** The characters with the Unicode White_Space property. */
  predicate IsWhitespace(c: char) {
    || '\U{0009}' <= c <= '\U{000D}' || c == ' ' || c == '\U{0085}' || c == '\U{00A0}' || c == '\U{1680}'
    || '\U{2000}' <= c <= '\U{200A}' || c == '\U{2028}' || c == '\U{2029}' || c == '\U{202F}'
    || c == '\U{205F}' || c == '\U{3000}'
  }

  function Trim(s: string): (t: string)
    ensures forall c :: c in t ==> c in s
  {
    if |s| > 0 && IsWhitespace(s[0]) then Trim(s[1..])
    else if |s| > 0 && IsWhitespace(s[|s| - 1]) then Trim(s[..|s| - 1])
    else s
  }

  function TksAmount(amount: string): Result<nat, AmountError> {
    var clean := Trim(amount);
    if |clean| == 0 then Err(Empty) else WeiOfParts(Split(clean, '.'))
  }

  function WeiOfParts(parts: seq<string>): Result<nat, AmountError>
    requires |parts| > 0
  {
    if |parts| > 2 then Err(InvalidFormat)
    else
      var whole := ParseUnsigned(parts[0], U128_BOUND);
      if whole.None? then Err(InvalidWhole)
      else if whole.value * WEI_PER_TKS >= U128_BOUND then Err(AmountOverflow)
      else if |parts| == 1 then Ok(whole.value * WEI_PER_TKS)
      else if |parts[1]| > 18 then Err(TooManyDecimals)
      else
        var frac := ParseUnsigned(PadRight(parts[1], 18), U128_BOUND);
        if frac.None? then Err(InvalidFraction)
        else if whole.value * WEI_PER_TKS + frac.value >= U128_BOUND then Err(AmountOverflow)
        else Ok(whole.value * WEI_PER_TKS + frac.value)
  }

  method ParseTksAmount(amount: string) returns (r: Result<nat, AmountError>)
    ensures r == TksAmount(amount)
  {
    var clean := Trim(amount);
    if clean == "" {
      return Err(Empty);
    }
    var parts := Split(clean, '.');
    if |parts| > 2 {
      return Err(InvalidFormat);
    }
    var whole := ParseUnsigned(parts[0], U128_BOUND);
    if whole.None? {
      return Err(InvalidWhole);
    }
    var wei := whole.value * WEI_PER_TKS;
    if wei >= U128_BOUND {
      return Err(AmountOverflow);
    }
    if |parts| == 2 {
      var fracText := parts[1];
      if |fracText| > 18 {
        return Err(TooManyDecimals);
      }
      var frac := ParseUnsigned(PadRight(fracText, 18), U128_BOUND);
      if frac.None? {
        return Err(InvalidFraction);
      }
      wei := wei + frac.value;
      if wei >= U128_BOUND {
        return Err(AmountOverflow);
      }
    }
    r := Ok(wei);
  }

  function FirstFour(digits: string): string { if |digits| > 4 then digits[..4] else digits }

  function FormatTks(raw: nat): string { DisplayedTks(raw / WEI_PER_TKS, raw % WEI_PER_TKS) }

  function DisplayedTks(whole: nat, frac: nat): string {
    if frac == 0 then Print(whole) else Print(whole) + "." + FirstFour(Fraction(frac, 18))
  }

  // ----- What is printed -----

  /** The fraction digits, padded back, are the fraction. */
  lemma {:induction false} FractionDigits(frac: nat, decimals: nat)
    requires 0 < frac < Pow10(decimals)
    ensures AllDigits(Fraction(frac, decimals)) && 0 < |Fraction(frac, decimals)| <= decimals
    ensures AllDigits(PadRight(Fraction(frac, decimals), decimals))
    ensures Value(PadRight(Fraction(frac, decimals), decimals)) == frac
  {
    hide TrimEndZeros, Print, PadLeft, PadRight, Value, Pow10;
    var padded := PadLeft(Print(frac), decimals);
    PaddedDigits(frac, decimals);
    TrimThenPad(padded);
    TrimmedIsNotEmpty(padded);
  }

  lemma {:induction false} PaddedDigits(frac: nat, decimals: nat)
    requires 0 < frac < Pow10(decimals)
    ensures
      var padded := PadLeft(Print(frac), decimals);
      |padded| == decimals && AllDigits(padded) && Value(padded) == frac
  {
    hide Print, Value;
    PrintLength(frac, decimals);
    ValueOfPadLeft(Print(frac), decimals);
    ValueOfPrint(frac);
  }

  lemma {:induction false} TrimmedIsNotEmpty(padded: string)
    requires AllDigits(padded) && Value(padded) > 0
    ensures |TrimEndZeros(padded)| > 0
  {
    hide TrimEndZeros, Value;
    TrimThenPad(padded);
    if |TrimEndZeros(padded)| == 0 {
      assert padded == Zeros(|padded|);
      ValueOfZeros(|padded|);
    }
  }

  lemma {:induction false} SplitPointed(whole: string, frac: string)
    requires AllDigits(whole) && AllDigits(frac)
    ensures Split(whole, '.') == [whole]
    ensures Split(whole + "." + frac, '.') == [whole, frac]
  {
    DigitsHaveNoSign(whole, '.');
    DigitsHaveNoSign(frac, '.');
    SplitNone(whole, '.');
    SplitNone(frac, '.');
    SplitAt(whole, frac, '.');
  }

  lemma {:induction false} ParseDigits(s: string)
    requires AllDigits(s) && |s| > 0
    ensures ParseUnsigned(s, U128_BOUND) == if Value(s) < U128_BOUND then Some(Value(s)) else None
  {
    DigitsHaveNoSign(s, '+');
    ParsePlain(s, U128_BOUND);
  }

  // ----- Printing then parsing -----

  lemma {:induction false} Pow10Monotone(m: nat, n: nat)
    requires m <= n
    ensures Pow10(m) <= Pow10(n)
  {
    if m < n {
      Pow10Monotone(m, n - 1);
    }
  }

  lemma {:induction false} ShiftBy2(v: nat)
    ensures Shift(v, 2) == 100 * v
  {
    assert Shift(v, 1) == 10 * Shift(v, 0);
  }

  lemma {:induction false} ShiftBy4(v: nat)
    ensures Shift(v, 4) == 10_000 * v
  {
    ShiftBy2(v);
    ShiftBy2(100 * v);
    ShiftTwice(v, 2, 2);
  }

  lemma {:induction false} ShiftBy8(v: nat)
    ensures Shift(v, 8) == 1_0000_0000 * v
  {
    ShiftBy4(v);
    ShiftBy4(10_000 * v);
    ShiftTwice(v, 4, 4);
  }

  lemma {:induction false} ShiftBy16(v: nat)
    ensures Shift(v, 16) == 1_0000_0000_0000_0000 * v
  {
    ShiftBy8(v);
    ShiftBy8(1_0000_0000 * v);
    ShiftTwice(v, 8, 8);
  }

  /** The constants of the source are the powers of ten they stand for. */
  lemma {:induction false} Constants(v: nat)
    ensures Shift(v, 14) == v * FOUR_DECIMALS
    ensures Shift(v, 18) == v * WEI_PER_TKS
  {
    ShiftBy8(v);
    ShiftBy4(Shift(v, 8));
    ShiftTwice(v, 8, 4);
    ShiftBy2(Shift(v, 12));
    ShiftTwice(v, 12, 2);
    ShiftBy16(v);
    ShiftBy2(Shift(v, 16));
    ShiftTwice(v, 16, 2);
  }

  lemma {:induction false} TokenIsPower()
    ensures Pow10(14) == FOUR_DECIMALS && Pow10(18) == WEI_PER_TKS
  {
    Constants(1);
    Pow10IsShift(14);
    Pow10IsShift(18);
  }

  lemma {:induction false} PowersThatFit()
    ensures Pow10(18) < U128_BOUND
    ensures Pow10(38) < U128_BOUND <= Pow10(39)
  {
    Constants(1);
    Constants(WEI_PER_TKS);
    ShiftTwice(1, 18, 18);
    ShiftBy2(Shift(1, 36));
    ShiftTwice(1, 36, 2);
    TokenIsPower();
    Pow10IsShift(38);
    assert Pow10(39) == 10 * Pow10(38);
  }

  /** A printed balance parses back to the same integer, for every 128-bit value, exactly
      when the power of ten of the chain fits 128 bits. */
  lemma {:induction false} BalanceRoundTripIff(value: nat, decimals: nat)
    requires value < U128_BOUND
    ensures (FormatBalance(Print(value), decimals).Text?
        && ParseAmount(FormatBalance(Print(value), decimals).text, decimals) == Text(Print(value)))
      == (decimals <= 38)
  {
    hide FormatBalance, ParseAmount, Print, Pow10;
    PowersThatFit();
    if decimals <= 38 {
      Pow10Monotone(decimals, 38);
      if value == 0 {
        ZeroBalance(decimals);
        ParseOfZeroText(decimals);
      } else {
        BalanceRoundTrip(value, decimals);
      }
    } else {
      Pow10Monotone(39, decimals);
      NeverParsesBack(Print(value), decimals);
    }
  }

  /** With too many decimals nothing parses. */
  lemma {:induction false} NeverParsesBack(raw: string, decimals: nat)
    requires Pow10(decimals) >= U128_BOUND
    ensures forall display :: ParseAmount(display, decimals) == Overflow
  {
    hide Pow10, Split, ParseOrZero, Shift;
  }

  lemma {:induction false} ZeroBalance(decimals: nat)
    ensures FormatBalance(Print(0), decimals) == Text("0")
  {
    ParseOfPrint(0, U128_BOUND);
  }

  lemma {:induction false} ParseOfZeroText(decimals: nat)
    requires Pow10(decimals) < U128_BOUND
    ensures ParseAmount("0", decimals) == Text(Print(0))
  {
    SplitPointed("0", "");
    ParseDigits("0");
    assert Value("0") == 0;
    ShiftOfZero(decimals);
  }

  lemma {:induction false} BalanceRoundTrip(value: nat, decimals: nat)
    requires 0 < value < U128_BOUND && Pow10(decimals) < U128_BOUND
    ensures FormatBalance(Print(value), decimals).Text?
    ensures ParseAmount(FormatBalance(Print(value), decimals).text, decimals) == Text(Print(value))
  {
    hide ParseAmount, Pointed, ParseUnsigned, Print;
    var whole, frac := DivPow10(value, decimals), ModPow10(value, decimals);
    ParseOfPrint(value, U128_BOUND);
    PointedParses(whole, frac, decimals);
  }

  lemma {:induction false} PointedParses(whole: nat, frac: nat, decimals: nat)
    requires frac < Pow10(decimals) < U128_BOUND && whole <= Shift(whole, decimals) + frac < U128_BOUND
    ensures ParseAmount(Pointed(whole, frac, decimals), decimals) == Text(Print(Shift(whole, decimals) + frac))
  {
    hide ParseOrZero, Print, Split, Fraction, FirstDigits;
    WholePartParses(whole);
    if frac == 0 {
      SplitPointed(Print(whole), "");
    } else {
      var digits := Fraction(frac, decimals);
      FractionDigits(frac, decimals);
      SplitPointed(Print(whole), digits);
      FractionPartParses(digits, decimals);
    }
  }

  lemma {:induction false} WholePartParses(whole: nat)
    requires whole < U128_BOUND
    ensures ParseOrZero(Print(whole)) == whole
  {
    ValueOfPrint(whole);
    ParseDigits(Print(whole));
  }

  lemma {:induction false} FractionPartParses(digits: string, decimals: nat)
    requires AllDigits(digits) && 0 < |digits| <= decimals
    requires Value(PadRight(digits, decimals)) < U128_BOUND
    ensures ParseOrZero(FirstDigits(digits, decimals)) == Value(PadRight(digits, decimals))
  {
    ValueOfPadRight(digits, decimals);
    assert FirstDigits(digits, decimals) == PadRight(digits, decimals);
    ParseDigits(PadRight(digits, decimals));
  }

  // ----- What a balance looks like -----

  /** `whole` and `frac` write `value` / 10^decimals in the shortest way: no leading zero before
      the point, no trailing zero after it. */
  ghost predicate IsShortest(value: nat, decimals: nat, whole: string, frac: string) {
    && AllDigits(whole) && |whole| > 0 && (|whole| > 1 ==> whole[0] != '0')
    && AllDigits(frac) && |frac| <= decimals && (frac != "" ==> frac[|frac| - 1] != '0')
    && value == Shift(Value(whole), decimals) + Shift(Value(frac), decimals - |frac|)
  }

  function WithPoint(whole: string, frac: string): string { if frac == "" then whole else whole + "." + frac }

  lemma {:induction false} PointedIsShortest(whole: nat, frac: nat, decimals: nat)
    requires frac < Pow10(decimals)
    ensures
      var f := if frac == 0 then "" else Fraction(frac, decimals);
      && IsShortest(Shift(whole, decimals) + frac, decimals, Print(whole), f)
      && Pointed(whole, frac, decimals) == WithPoint(Print(whole), f)
  {
    hide Print, Fraction, Shift, Pow10;
    ValueOfPrint(whole);
    PrintHasNoLeadingZero(whole);
    var f := if frac == 0 then "" else Fraction(frac, decimals);
    ShiftOfZero(decimals);
    if frac > 0 {
      FractionDigits(frac, decimals);
      ValueOfPadRight(f, decimals);
      FractionEnds(frac, decimals);
    }
    assert IsShortest(Shift(whole, decimals) + frac, decimals, Print(whole), f);
  }

  lemma {:induction false} FractionEnds(frac: nat, decimals: nat)
    ensures var f := Fraction(frac, decimals); f != "" ==> f[|f| - 1] != '0'
  {
    NothingLeftToTrim(PadLeft(Print(frac), decimals));
  }

  /** What is printed for any stored balance: its shortest decimal text; zero for zero and for
      text that is no 128-bit number; and from 39 decimals on nothing fits. */
  lemma {:induction false} BalanceText(raw: string, decimals: nat)
    ensures ParseOrZero(raw) == 0 ==> FormatBalance(raw, decimals) == Text("0")
    ensures ParseOrZero(raw) > 0 && decimals > 38 ==> FormatBalance(raw, decimals) == Overflow
    ensures ParseOrZero(raw) > 0 && decimals <= 38 ==> exists whole, frac ::
      IsShortest(ParseOrZero(raw), decimals, whole, frac)
      && FormatBalance(raw, decimals) == Text(WithPoint(whole, frac))
  {
    hide ParseOrZero, Pointed, Pow10, Print, IsShortest;
    PowersThatFit();
    var value := ParseOrZero(raw);
    if value > 0 && decimals > 38 {
      Pow10Monotone(39, decimals);
    } else if value > 0 {
      Pow10Monotone(decimals, 38);
      PointedIsShortest(DivPow10(value, decimals), ModPow10(value, decimals), decimals);
    }
  }

  ghost predicate IsNumeral(s: string, plus: bool, digits: string) {
    s == Sign(plus) + digits && AllDigits(digits) && |digits| > 0 && Value(digits) < U128_BOUND
  }

  /** Text that is not a 128-bit number counts as zero. */
  lemma {:induction false} ParseOrZeroIs(s: string)
    ensures forall plus, digits :: IsNumeral(s, plus, digits) ==> ParseOrZero(s) == Value(digits)
    ensures (forall plus, digits :: !IsNumeral(s, plus, digits)) ==> ParseOrZero(s) == 0
  {
    hide ParseUnsigned;
    forall plus, digits | IsNumeral(s, plus, digits) ensures ParseOrZero(s) == Value(digits) {
      ParseSigned(plus, digits, U128_BOUND);
    }
    if ParseUnsigned(s, U128_BOUND).Some? {
      var plus, digits := ParsedText(s, U128_BOUND);
      assert IsNumeral(s, plus, digits);
    }
  }

  // ----- What `parse_amount` reads -----

  function IfItFits(raw: nat): Checked { if raw < U128_BOUND then Text(Print(raw)) else Overflow }

  /** Of any text only what precedes a second point counts; the fraction is cut off, or filled
      up with zeros, to `decimals` places. */
  lemma {:induction false} AmountOfText(whole: string, frac: string, tail: string, decimals: nat)
    requires '.' !in whole && '.' !in frac && (tail != "" ==> tail[0] == '.')
    ensures
      var places := if |frac| >= decimals then frac[..decimals] else frac + Zeros(decimals - |frac|);
      var raw := Shift(ParseOrZero(whole), decimals) + ParseOrZero(places);
      ParseAmount(whole + "." + frac + tail, decimals) ==
        if decimals > 38 then Overflow else IfItFits(raw)
    ensures ParseAmount(whole, decimals) ==
      if decimals > 38 then Overflow else IfItFits(Shift(ParseOrZero(whole), decimals))
  {
    hide ParseOrZero, Shift, Print, Pow10, Split;
    PowersThatFit();
    if decimals > 38 {
      Pow10Monotone(39, decimals);
    } else {
      Pow10Monotone(decimals, 38);
    }
    FirstParts(whole, frac, tail);
    SplitNone(whole, '.');
    assert FirstDigits(frac, decimals) ==
      if |frac| >= decimals then frac[..decimals] else frac + Zeros(decimals - |frac|);
  }

  lemma {:induction false} FirstParts(whole: string, frac: string, tail: string)
    requires '.' !in whole && '.' !in frac && (tail != "" ==> tail[0] == '.')
    ensures
      var parts := Split(whole + "." + frac + tail, '.');
      |parts| > 1 && parts[0] == whole && parts[1] == frac
  {
    hide Split;
    assert whole + "." + frac + tail == whole + ['.'] + (frac + tail);
    SplitAt(whole, frac + tail, '.');
    if tail == "" {
      assert frac + tail == frac;
      SplitNone(frac, '.');
    } else {
      assert frac + tail == frac + ['.'] + tail[1..];
      SplitAt(frac, tail[1..], '.');
    }
  }

  /** `raw` is the typed amount times 10^decimals, rounded down. */
  ghost predicate IsRoundedDown(raw: nat, whole: string, frac: string, decimals: nat)
    requires AllDigits(whole) && AllDigits(frac)
  {
    ValueConcat(whole, frac);
    Shift(raw, |frac|) <= Shift(Value(whole + frac), decimals) < Shift(raw + 1, |frac|)
  }

  lemma {:induction false} RoundedDownUnique(raw: nat, raw': nat, whole: string, frac: string, decimals: nat)
    requires AllDigits(whole) && AllDigits(frac)
    requires IsRoundedDown(raw, whole, frac, decimals) && IsRoundedDown(raw', whole, frac, decimals)
    ensures raw == raw'
  {
    if raw < raw' {
      ShiftMonotone(raw + 1, raw', |frac|);
    } else if raw' < raw {
      ShiftMonotone(raw' + 1, raw, |frac|);
    }
  }

  lemma {:induction false} PlacesRoundDown(whole: string, frac: string, decimals: nat)
    requires AllDigits(whole) && AllDigits(frac)
    ensures AllDigits(FirstDigits(frac, decimals)) && |FirstDigits(frac, decimals)| == decimals
    ensures IsRoundedDown(Shift(Value(whole), decimals) + Value(FirstDigits(frac, decimals)), whole, frac, decimals)
  {
    hide Shift, Value, Pow10;
    var w := Value(whole);
    ValueConcat(whole, frac);
    if |frac| <= decimals {
      ValueOfPadRight(frac, decimals);
      assert FirstDigits(frac, decimals) == PadRight(frac, decimals);
      ExactPlaces(w, Value(frac), |frac|, decimals);
    } else {
      var shown, cut := frac[..decimals], frac[decimals..];
      assert frac == shown + cut && FirstDigits(frac, decimals) == shown;
      ValueConcat(shown, cut);
      ValueBound(cut);
      CutPlaces(w, Value(shown), Value(cut), |frac|, decimals);
    }
  }

  lemma {:induction false} ExactPlaces(w: nat, f: nat, n: nat, d: nat)
    requires n <= d
    ensures
      var raw := Shift(w, d) + Shift(f, d - n);
      Shift(raw, n) == Shift(Shift(w, n) + f, d) < Shift(raw + 1, n)
  {
    var raw := Shift(w, d) + Shift(f, d - n);
    ShiftAdds(Shift(w, d), Shift(f, d - n), n);
    ShiftTwice(w, d, n);
    ShiftTwice(f, d - n, n);
    ShiftAdds(Shift(w, n), f, d);
    ShiftTwice(w, n, d);
    ShiftAdds(raw, 1, n);
    ShiftMonotone(1, 1, n);
  }

  lemma {:induction false} CutPlaces(w: nat, shown: nat, cut: nat, n: nat, d: nat)
    requires d <= n && cut < Pow10(n - d)
    ensures
      var raw := Shift(w, d) + shown;
      Shift(raw, n) <= Shift(Shift(w, n) + (Shift(shown, n - d) + cut), d) < Shift(raw + 1, n)
  {
    hide Shift, Pow10;
    var raw := Shift(w, d) + shown;
    ShiftAdds(Shift(w, d), shown, n);
    ShiftTwice(w, d, n);
    ShiftAdds(Shift(w, n), Shift(shown, n - d) + cut, d);
    ShiftTwice(w, n, d);
    ShiftAdds(Shift(shown, n - d), cut, d);
    ShiftTwice(shown, n - d, d);
    ShiftAdds(raw, 1, n);
    Pow10IsShift(n - d);
    ShiftTwice(1, n - d, d);
    ShiftMonotone(cut, cut, d);
    ShiftAdds(cut, Shift(1, n - d) - cut, d);
    ShiftMonotone(Shift(1, n - d) - cut, Shift(1, n - d) - cut, d);
  }

  /** A typed decimal number with any number of fraction digits, for up to 38 decimals, is read
      as its amount rounded down, or overflows where that does not fit 128 bits, exactly when
      its whole part fits them: a larger one is taken for zero. */
  lemma {:induction false} TypedAmountIff(whole: string, frac: string, decimals: nat, raw: nat)
    requires AllDigits(whole) && AllDigits(frac) && |whole| > 0 && decimals <= 38
    requires IsRoundedDown(raw, whole, frac, decimals)
    ensures ParseAmount(whole + "." + frac, decimals) == IfItFits(raw) <==> Value(whole) < U128_BOUND
    ensures frac == "" ==> (ParseAmount(whole, decimals) == IfItFits(raw) <==> Value(whole) < U128_BOUND)
  {
    hide ParseAmount, IsRoundedDown, Print, Shift, FirstDigits;
    DigitsHaveNoSign(whole, '.');
    DigitsHaveNoSign(frac, '.');
    PlacesRoundDown(whole, frac, decimals);
    RoundedDownUnique(raw, Shift(Value(whole), decimals) + Value(FirstDigits(frac, decimals)), whole, frac, decimals);
    TypedParts(whole, frac, decimals);
    ShiftMonotone(Value(whole), Value(whole), decimals);
    ShiftOfZero(decimals);
  }

  lemma {:induction false} TypedParts(whole: string, frac: string, decimals: nat)
    requires AllDigits(whole) && AllDigits(frac) && |whole| > 0 && decimals <= 38
    ensures AllDigits(FirstDigits(frac, decimals))
    ensures
      var w := if Value(whole) < U128_BOUND then Value(whole) else 0;
      var places := Value(FirstDigits(frac, decimals));
      var raw := Shift(w, decimals) + places;
      && places < U128_BOUND
      && ParseAmount(whole + "." + frac, decimals) == IfItFits(raw)
      && (frac == "" ==> places == 0)
      && (frac == "" ==> ParseAmount(whole, decimals) == IfItFits(raw))
  {
    hide ParseAmount, Print, Shift, ParseOrZero, FirstDigits, Value;
    DigitsHaveNoSign(whole, '.');
    DigitsHaveNoSign(frac, '.');
    PlacesRoundDown(whole, frac, decimals);
    var places := FirstDigits(frac, decimals);
    AmountOfText(whole, frac, "", decimals);
    ShownPlaces(frac, decimals);
    assert places == if |frac| >= decimals then frac[..decimals] else frac + Zeros(decimals - |frac|);
    assert whole + "." + frac + "" == whole + "." + frac;
    WholeParses(whole);
    PlacesParse(places);
    if frac == "" {
      assert places == Zeros(decimals);
      ValueOfZeros(decimals);
    }
  }

  lemma {:induction false} ShownPlaces(frac: string, decimals: nat)
    ensures FirstDigits(frac, decimals) ==
      if |frac| >= decimals then frac[..decimals] else frac + Zeros(decimals - |frac|)
  {
  }

  lemma {:induction false} WholeParses(whole: string)
    requires AllDigits(whole) && |whole| > 0
    ensures ParseOrZero(whole) == if Value(whole) < U128_BOUND then Value(whole) else 0
  {
    hide ParseUnsigned;
    ParseDigits(whole);
  }

  lemma {:induction false} PlacesParse(places: string)
    requires AllDigits(places) && |places| <= 38
    ensures ParseOrZero(places) == Value(places) < U128_BOUND
  {
    PowersThatFit();
    ValueBound(places);
    Pow10Monotone(|places|, 38);
    if |places| > 0 {
      ParseDigits(places);
    }
  }

  /** An instance: 2^128 with no decimals is read as zero. */
  lemma {:induction false} LargeWholeReadAsZero()
    ensures ParseAmount(Print(U128_BOUND), 0) == Text("0")
  {
    ParseOfPrint(U128_BOUND, U128_BOUND);
    DigitsHaveNoSign(Print(U128_BOUND), '.');
    AmountOfText(Print(U128_BOUND), "", "", 0);
    assert Print(0) == "0";
  }

  // ----- What `parse_tks_amount` accepts -----

  /** `text` is decimal notation, with at most 18 fraction digits, for `wei` / 10^18. */
  ghost predicate Denotes(text: string, wei: nat) {
    exists whole: string, frac: string :: Notation(text, whole, frac) && wei == ExactWei(whole, frac)
  }

  ghost predicate Notation(text: string, whole: string, frac: string) {
    && AllDigits(whole) && AllDigits(frac) && |whole| > 0 && |frac| <= 18
    && (text == whole + "." + frac || (frac == "" && text == whole))
  }

  ghost function ExactWei(whole: string, frac: string): nat
    requires AllDigits(whole) && AllDigits(frac) && |frac| <= 18
  {
    Shift(Value(whole), 18) + Shift(Value(frac), 18 - |frac|)
  }

  /** The text the parser reads as two numbers, each after an optional plus sign. */
  datatype Reading = Reading(wholePlus: bool, whole: string, fracPlus: bool, frac: string)

  function WholeText(r: Reading): string { Sign(r.wholePlus) + r.whole }

  function FracText(r: Reading): string { Sign(r.fracPlus) + r.frac }

  /** `text` is `r` written out.  A plus sign takes up one of the 18 places of the fraction. */
  ghost predicate ReadsAs(text: string, r: Reading) {
    && AllDigits(r.whole) && AllDigits(r.frac) && |r.whole| > 0 && |FracText(r)| <= 18
    && (text == WholeText(r) + "." + FracText(r) || (FracText(r) == "" && text == WholeText(r)))
  }

  ghost function ReadWei(r: Reading): nat
    requires AllDigits(r.whole) && AllDigits(r.frac) && |FracText(r)| <= 18
  {
    Shift(Value(r.whole), 18) + Shift(Value(r.frac), 18 - |FracText(r)|)
  }

  ghost predicate ReadsAsWei(text: string, r: Reading, wei: nat) {
    ReadsAs(text, r) && wei == ReadWei(r) < U128_BOUND
  }

  lemma {:induction false} ReadingHasNoPoint(r: Reading)
    requires AllDigits(r.whole) && AllDigits(r.frac)
    ensures Split(WholeText(r), '.') == [WholeText(r)]
    ensures Split(WholeText(r) + "." + FracText(r), '.') == [WholeText(r), FracText(r)]
  {
    DigitsHaveNoSign(r.whole, '.');
    DigitsHaveNoSign(r.frac, '.');
    SplitNone(WholeText(r), '.');
    SplitNone(FracText(r), '.');
    SplitAt(WholeText(r), FracText(r), '.');
  }

  /** Zeros fill up the fraction behind its sign. */
  lemma {:induction false} PaddedFraction(r: Reading)
    requires AllDigits(r.frac) && |FracText(r)| <= 18
    ensures
      var digits := PadRight(r.frac, 18 - |Sign(r.fracPlus)|);
      && PadRight(FracText(r), 18) == Sign(r.fracPlus) + digits
      && AllDigits(digits) && |digits| > 0 && Value(digits) == Shift(Value(r.frac), 18 - |FracText(r)|)
  {
    ValueOfPadRight(r.frac, 18 - |Sign(r.fracPlus)|);
  }

  lemma {:induction false} FractionParses(r: Reading)
    requires AllDigits(r.frac) && |FracText(r)| <= 18 && Shift(Value(r.frac), 18 - |FracText(r)|) < U128_BOUND
    ensures ParseUnsigned(PadRight(FracText(r), 18), U128_BOUND) == Some(Shift(Value(r.frac), 18 - |FracText(r)|))
  {
    hide ParseUnsigned, PadRight, Shift, Value;
    PaddedFraction(r);
    ParseSigned(r.fracPlus, PadRight(r.frac, 18 - |Sign(r.fracPlus)|), U128_BOUND);
  }

  lemma {:induction false} ReadingPartsAccepted(r: Reading)
    requires AllDigits(r.whole) && AllDigits(r.frac) && |r.whole| > 0 && |FracText(r)| <= 18
    requires ReadWei(r) < U128_BOUND
    ensures WeiOfParts([WholeText(r), FracText(r)]) == Ok(ReadWei(r))
    ensures FracText(r) == "" ==> WeiOfParts([WholeText(r)]) == Ok(ReadWei(r))
  {
    hide ParseUnsigned, PadRight, Shift, AllDigits;
    Constants(Value(r.whole));
    ParseSigned(r.wholePlus, r.whole, U128_BOUND);
    FractionParses(r);
    ShiftOfZero(18);
  }

  /** A fraction that parses when padded is digits after at most one plus sign. */
  lemma {:induction false} ParsedFraction(s: string, whole: Reading) returns (r: Reading)
    requires |s| <= 18 && ParseUnsigned(PadRight(s, 18), U128_BOUND).Some?
    ensures r.wholePlus == whole.wholePlus && r.whole == whole.whole && FracText(r) == s && AllDigits(r.frac)
    ensures ParseUnsigned(PadRight(s, 18), U128_BOUND).value == Shift(Value(r.frac), 18 - |s|)
  {
    hide ParseUnsigned, PadRight, AllDigits, Value, Shift;
    var fracPlus, digits := ParsedText(PadRight(s, 18), U128_BOUND);
    SignSurvives(s, fracPlus, digits);
    r := whole.(fracPlus := fracPlus, frac := s[|Sign(fracPlus)|..]);
    PaddedFraction(r);
  }

  /** Parts that are accepted are a reading, with its value. */
  lemma {:induction false} AcceptedParts(parts: seq<string>, wei: nat) returns (r: Reading)
    requires 1 <= |parts| <= 2 && WeiOfParts(parts) == Ok(wei)
    ensures AllDigits(r.whole) && AllDigits(r.frac) && |r.whole| > 0 && |FracText(r)| <= 18
    ensures WholeText(r) == parts[0] && FracText(r) == (if |parts| == 1 then "" else parts[1])
    ensures wei == ReadWei(r) < U128_BOUND
  {
    hide ParseUnsigned, PadRight;
    var wholePlus, whole := ParsedText(parts[0], U128_BOUND);
    Constants(Value(whole));
    r := Reading(wholePlus, whole, false, "");
    ShiftOfZero(18);
    if |parts| == 2 {
      r := ParsedFraction(parts[1], r);
    }
  }

  lemma {:induction false} SignSurvives(s: string, plus: bool, digits: string)
    requires |s| <= 18 && PadRight(s, 18) == Sign(plus) + digits && AllDigits(digits)
    ensures |Sign(plus)| <= |s| && s == Sign(plus) + s[|Sign(plus)|..] && AllDigits(s[|Sign(plus)|..])
    ensures digits == PadRight(s[|Sign(plus)|..], 18 - |Sign(plus)|)
  {
    var padded := PadRight(s, 18);
    assert forall i :: 0 <= i < |s| ==> s[i] == padded[i];
    if plus {
      assert padded[0] == '+';
    }
    var n := |Sign(plus)|;
    assert forall i :: n <= i < |s| ==> s[i] == digits[i - n];
    assert padded == s + Zeros(18 - |s|);
    assert digits == padded[n..] == s[n..] + Zeros(18 - |s|);
    assert PadRight(s[n..], 18 - n) == s[n..] + Zeros(18 - |s|);
  }

  /** Parsing succeeds, for every text, exactly on digits, or digits and a point and at most 18
      places of digits, where each of the two numbers may follow a plus sign, when the amount
      fits 128 bits; and the result is the exact amount. */
  lemma {:induction false} AcceptsExactly(amount: string, wei: nat)
    ensures TksAmount(amount) == Ok(wei) <==> exists r :: ReadsAsWei(Trim(amount), r, wei)
  {
    hide WeiOfParts, ReadWei;
    if TksAmount(amount) == Ok(wei) {
      var r := AcceptedReading(amount, wei);
      assert ReadsAsWei(Trim(amount), r, wei);
    }
    if r :| ReadsAsWei(Trim(amount), r, wei) {
      ReadingIsAccepted(amount, r);
    }
  }

  lemma {:induction false} ReadingIsAccepted(amount: string, r: Reading)
    requires ReadsAs(Trim(amount), r) && ReadWei(r) < U128_BOUND
    ensures TksAmount(amount) == Ok(ReadWei(r))
  {
    hide WeiOfParts, ReadWei;
    ReadingHasNoPoint(r);
    ReadingPartsAccepted(r);
  }

  lemma {:induction false} AcceptedReading(amount: string, wei: nat) returns (r: Reading)
    requires TksAmount(amount) == Ok(wei)
    ensures ReadsAsWei(Trim(amount), r, wei)
  {
    hide ReadWei;
    var clean := Trim(amount);
    var parts := Split(clean, '.');
    SplitInverts(clean, '.');
    assert |parts| <= 2;
    hide WeiOfParts;
    r := AcceptedParts(parts, wei);
    if |parts| == 2 {
      assert clean == WholeText(r) + "." + FracText(r);
    }
  }

  // ----- Why a transfer amount is refused -----

  /** Only whitespace is trimmed, and none is left at either end. */
  lemma {:induction false} Trimmed(s: string) returns (before: string, after: string)
    ensures s == before + Trim(s) + after
    ensures forall c :: c in before || c in after ==> IsWhitespace(c)
    ensures Trim(s) != "" ==> !IsWhitespace(Trim(s)[0]) && !IsWhitespace(Trim(s)[|Trim(s)| - 1])
  {
    hide IsWhitespace;
    if |s| > 0 && IsWhitespace(s[0]) {
      before, after := Trimmed(s[1..]);
      Framed(s[0], s[1..], before, Trim(s[1..]), after);
      before := [s[0]] + before;
    } else if |s| > 0 && IsWhitespace(s[|s| - 1]) {
      before, after := Trimmed(s[..|s| - 1]);
      Framed(s[|s| - 1], s[..|s| - 1], before, Trim(s[..|s| - 1]), after);
      after := after + [s[|s| - 1]];
    } else {
      before, after := "", "";
      assert s == "" + s + "";
    }
  }

  lemma {:induction false} Framed(c: char, s: string, before: string, t: string, after: string)
    requires s == before + t + after
    ensures [c] + s == ([c] + before) + t + after
    ensures s + [c] == before + t + (after + [c])
  {
  }

  /** The outcome for every text, and the first reason to refuse it: nothing but whitespace; a
      second point; a whole part that is no 128-bit number, or too large in 10^-18 units; more
      than 18 places; a fraction that is no number once filled up with zeros; a sum too large. */
  lemma {:induction false} TransferOutcome(amount: string, whole: string, frac: string, tail: string)
    requires '.' !in whole && '.' !in frac
    ensures Trim(amount) == "" ==> TksAmount(amount) == Err(Empty)
    ensures Trim(amount) == whole + "." + frac + "." + tail ==> TksAmount(amount) == Err(InvalidFormat)
    ensures whole != "" && Trim(amount) == whole ==>
      var w := ParseUnsigned(whole, U128_BOUND);
      TksAmount(amount) ==
        if w.None? then Err(InvalidWhole)
        else if Shift(w.value, 18) >= U128_BOUND then Err(AmountOverflow)
        else Ok(Shift(w.value, 18))
    ensures Trim(amount) == whole + "." + frac ==>
      var w := ParseUnsigned(whole, U128_BOUND);
      TksAmount(amount) ==
        if w.None? then Err(InvalidWhole)
        else if Shift(w.value, 18) >= U128_BOUND then Err(AmountOverflow)
        else if |frac| > 18 then Err(TooManyDecimals)
        else
          var f := ParseUnsigned(frac + Zeros(18 - |frac|), U128_BOUND);
          if f.None? then Err(InvalidFraction)
          else if Shift(w.value, 18) + f.value >= U128_BOUND then Err(AmountOverflow)
          else Ok(Shift(w.value, 18) + f.value)
  {
    hide Trim, ParseUnsigned, Shift, Split;
    var w := ParseUnsigned(whole, U128_BOUND);
    if w.Some? {
      Constants(w.value);
    }
    SplitNone(whole, '.');
    SplitNone(frac, '.');
    assert whole + "." + frac == whole + ['.'] + frac;
    SplitAt(whole, frac, '.');
    SplitTail(whole, frac, tail);
    assert |frac| <= 18 ==> PadRight(frac, 18) == frac + Zeros(18 - |frac|);
  }

  lemma {:induction false} SplitTail(whole: string, frac: string, tail: string)
    requires '.' !in whole && '.' !in frac
    ensures |Split(whole + "." + frac + "." + tail, '.')| > 2
  {
    hide Split;
    assert whole + "." + frac + "." + tail == whole + ['.'] + (frac + ['.'] + tail);
    SplitAt(whole, frac + ['.'] + tail, '.');
    SplitAt(frac, tail, '.');
  }

  // ----- Decimal notation -----

  ghost predicate HasPlus(r: Reading) { r.wholePlus || r.fracPlus }

  /** The readings without a plus sign are decimal notation. */
  lemma {:induction false} PlainReading(text: string, r: Reading, wei: nat)
    requires ReadsAsWei(text, r, wei) && !HasPlus(r)
    ensures Denotes(text, wei) && wei < U128_BOUND
  {
    hide ReadWei, ExactWei;
    PlainWei(r);
    assert WholeText(r) == r.whole && FracText(r) == r.frac;
    assert Notation(text, r.whole, r.frac);
  }

  lemma {:induction false} PlainWei(r: Reading)
    requires AllDigits(r.whole) && AllDigits(r.frac) && |r.frac| <= 18 && !HasPlus(r)
    ensures ReadWei(r) == ExactWei(r.whole, r.frac)
  {
    assert FracText(r) == r.frac;
  }

  lemma {:induction false} NotationReads(text: string, whole: string, frac: string)
    requires Notation(text, whole, frac)
    ensures ReadsAs(text, Reading(false, whole, false, frac))
    ensures ReadWei(Reading(false, whole, false, frac)) == ExactWei(whole, frac)
  {
    hide ReadWei, ExactWei;
    var r := Reading(false, whole, false, frac);
    PlainWei(r);
    assert WholeText(r) == whole && FracText(r) == frac;
  }

  lemma {:induction false} DecimalIsAccepted(amount: string, whole: string, frac: string)
    requires Notation(Trim(amount), whole, frac) && ExactWei(whole, frac) < U128_BOUND
    ensures TksAmount(amount) == Ok(ExactWei(whole, frac))
  {
    NotationReads(Trim(amount), whole, frac);
    ReadingIsAccepted(amount, Reading(false, whole, false, frac));
  }

  lemma {:induction false} DenotedIsAccepted(amount: string, wei: nat)
    requires Denotes(Trim(amount), wei) && wei < U128_BOUND
    ensures TksAmount(amount) == Ok(wei)
  {
    hide TksAmount, ExactWei;
    var whole, frac :| Notation(Trim(amount), whole, frac) && wei == ExactWei(whole, frac);
    DecimalIsAccepted(amount, whole, frac);
  }

  lemma {:induction false} NotationHasNoPlus(text: string, wei: nat)
    requires Denotes(text, wei)
    ensures '+' !in text
  {
    hide ExactWei;
    var whole, frac :| Notation(text, whole, frac) && wei == ExactWei(whole, frac);
    DigitsHaveNoSign(whole, '+');
    DigitsHaveNoSign(frac, '+');
  }

  lemma {:induction false} PlusIsInText(text: string, r: Reading)
    requires ReadsAs(text, r)
    ensures HasPlus(r) <==> '+' in text
  {
    DigitsHaveNoSign(r.whole, '+');
    DigitsHaveNoSign(r.frac, '+');
    if r.wholePlus {
      assert text[0] == '+';
    } else if r.fracPlus {
      assert text[|r.whole| + 1] == '+';
    }
  }

  /** On `amount` the parser accepts decimal notation and nothing else, at its exact value. */
  ghost predicate AcceptsOnlyDecimals(amount: string) {
    forall wei: nat :: TksAmount(amount) == Ok(wei) <==> Denotes(Trim(amount), wei) && wei < U128_BOUND
  }

  /** That fails exactly on an amount that fits 128 bits and is written with a plus sign before
      its whole part, its fraction, or both. */
  lemma {:induction false} AcceptsOnlyDecimalsIff(amount: string)
    ensures AcceptsOnlyDecimals(amount) <==>
      !exists r :: ReadsAs(Trim(amount), r) && ReadWei(r) < U128_BOUND && HasPlus(r)
  {
    hide TksAmount, Trim, Denotes, ReadWei;
    if r :| ReadsAs(Trim(amount), r) && ReadWei(r) < U128_BOUND && HasPlus(r) {
      ReadingIsAccepted(amount, r);
      PlusIsInText(Trim(amount), r);
      if Denotes(Trim(amount), ReadWei(r)) {
        NotationHasNoPlus(Trim(amount), ReadWei(r));
      }
    } else {
      forall wei: nat ensures TksAmount(amount) == Ok(wei) <==> Denotes(Trim(amount), wei) && wei < U128_BOUND {
        if TksAmount(amount) == Ok(wei) {
          var r := AcceptedReading(amount, wei);
          PlainReading(Trim(amount), r, wei);
        } else if Denotes(Trim(amount), wei) && wei < U128_BOUND {
          DenotedIsAccepted(amount, wei);
        }
      }
    }
  }

  /** In particular on text without a plus sign. */
  lemma {:induction false} AcceptsExactlyDecimals(amount: string, wei: nat)
    requires '+' !in amount
    ensures TksAmount(amount) == Ok(wei) <==> Denotes(Trim(amount), wei) && wei < U128_BOUND
  {
    hide TksAmount, Denotes, ReadWei;
    AcceptsOnlyDecimalsIff(amount);
    forall r | ReadsAs(Trim(amount), r) ensures !HasPlus(r) {
      PlusIsInText(Trim(amount), r);
    }
  }

  /** An instance with a plus sign: this one is read as 1.05. */
  lemma {:induction false} SignedFractionAccepted()
    ensures TksAmount("1.+5") == Ok(1_050_000_000_000_000_000)
    ensures !AcceptsOnlyDecimals("1.+5")
  {
    var text := "1.+5";
    TrimOfDigitText(text);
    hide TksAmount, ReadsAs, ReadWei, Trim;
    SignedFractionReads();
    ReadingIsAccepted(text, Reading(false, "1", true, "5"));
    AcceptsOnlyDecimalsIff(text);
  }

  lemma {:induction false} SignedFractionReads()
    ensures
      var r := Reading(false, "1", true, "5");
      ReadsAs("1.+5", r) && ReadWei(r) == 1_050_000_000_000_000_000
  {
    hide Shift;
    var r := Reading(false, "1", true, "5");
    assert "1.+5" == WholeText(r) + "." + FracText(r);
    assert Value("1") == 1 && Value("5") == 5;
    Constants(1);
    ShiftBy16(5);
  }

  // ----- Displayed balances -----

  lemma {:induction false} TrimOfDigitText(s: string)
    requires |s| > 0 && IsDigit(s[0]) && IsDigit(s[|s| - 1])
    ensures Trim(s) == s
  {
  }

  /** The wallet's printed balance is also read back by the transfer command. */
  lemma {:induction false} TransferReadsPrintedBalance(value: nat)
    requires value < U128_BOUND
    ensures FormatBalance(Print(value), 18).Text?
    ensures TksAmount(FormatBalance(Print(value), 18).text) == Ok(value)
  {
    hide TksAmount, FormatBalance, Pointed;
    PrintedBalance(value);
    if value == 0 {
      ReadWhole(0);
    } else {
      Constants(DivPow10(value, 18));
      TokenIsPower();
      ReadPrinted(DivPow10(value, 18), ModPow10(value, 18));
    }
  }

  lemma {:induction false} PrintedBalance(value: nat)
    requires value < U128_BOUND
    ensures FormatBalance(Print(value), 18) ==
      Text(if value == 0 then Print(0) else Pointed(DivPow10(value, 18), ModPow10(value, 18), 18))
  {
    ParseOfPrint(value, U128_BOUND);
    PowersThatFit();
    assert Print(0) == "0";
  }

  lemma {:induction false} ReadPrinted(whole: nat, frac: nat)
    requires frac < WEI_PER_TKS && whole * WEI_PER_TKS + frac < U128_BOUND
    ensures TksAmount(Pointed(whole, frac, 18)) == Ok(whole * WEI_PER_TKS + frac)
  {
    if frac == 0 {
      ReadWhole(whole);
    } else {
      FractionWorth(frac);
      ReadPointed(whole, Fraction(frac, 18), frac);
    }
  }

  lemma {:induction false} FractionWorth(frac: nat)
    requires 0 < frac < WEI_PER_TKS
    ensures var digits := Fraction(frac, 18);
      AllDigits(digits) && 0 < |digits| <= 18 && Shift(Value(digits), 18 - |digits|) == frac
  {
    TokenIsPower();
    FractionDigits(frac, 18);
    ValueOfPadRight(Fraction(frac, 18), 18);
  }

  lemma {:induction false} ReadWhole(whole: nat)
    requires whole * WEI_PER_TKS < U128_BOUND
    ensures TksAmount(Print(whole)) == Ok(whole * WEI_PER_TKS)
  {
    hide TksAmount;
    Constants(whole);
    ValueOfPrint(whole);
    TrimOfDigitText(Print(whole));
    ShiftOfZero(18);
    assert Value("") == 0;
    DecimalIsAccepted(Print(whole), Print(whole), "");
  }

  lemma {:induction false} ReadPointed(whole: nat, digits: string, frac: nat)
    requires AllDigits(digits) && 0 < |digits| <= 18 && Shift(Value(digits), 18 - |digits|) == frac
    requires whole * WEI_PER_TKS + frac < U128_BOUND
    ensures TksAmount(Print(whole) + "." + digits) == Ok(whole * WEI_PER_TKS + frac)
  {
    hide TksAmount;
    var text := Print(whole) + "." + digits;
    ExactWeiOfPrinted(whole, digits, frac);
    assert Notation(Trim(text), Print(whole), digits) by {
      TrimOfDigitText(text);
    }
    DecimalIsAccepted(text, Print(whole), digits);
  }

  lemma {:induction false} ExactWeiOfPrinted(whole: nat, digits: string, frac: nat)
    requires AllDigits(digits) && |digits| <= 18 && Shift(Value(digits), 18 - |digits|) == frac
    ensures ExactWei(Print(whole), digits) == whole * WEI_PER_TKS + frac
  {
    Constants(whole);
    ValueOfPrint(whole);
  }

  /** What is displayed: the shortest text of the balance, cut after four decimals. */
  lemma {:induction false} DisplayedText(raw: nat)
    ensures exists whole, frac ::
      IsShortest(raw, 18, whole, frac)
      && FormatTks(raw) == WithPoint(whole, if |frac| > 4 then frac[..4] else frac)
  {
    hide Print, Pow10, IsShortest, Fraction;
    TokenIsPower();
    var whole, frac := raw / WEI_PER_TKS, raw % WEI_PER_TKS;
    Constants(whole);
    PointedIsShortest(whole, frac, 18);
    var f := if frac == 0 then "" else Fraction(frac, 18);
    if frac > 0 {
      FractionDigits(frac, 18);
    }
    assert raw == Shift(whole, 18) + frac;
    assert IsShortest(raw, 18, Print(whole), f);
  }

  /** A displayed balance is the real one cut off after four decimals: reading it back gives
      the largest multiple of 10^14 wei that is not above it. */
  lemma {:induction false} DisplayedBalanceIsTruncated(raw: nat)
    requires raw < U128_BOUND
    ensures TksAmount(FormatTks(raw)) == Ok(raw - raw % FOUR_DECIMALS)
  {
    hide TksAmount, DisplayedTks;
    var whole, frac := raw / WEI_PER_TKS, raw % WEI_PER_TKS;
    assert raw == whole * WEI_PER_TKS + frac;
    var cut := ReadDisplayed(whole, frac);
  }

  lemma {:induction false} ReadDisplayed(whole: nat, frac: nat) returns (cut: nat)
    requires frac < WEI_PER_TKS && whole * WEI_PER_TKS + frac < U128_BOUND
    ensures cut <= frac && cut == (whole * WEI_PER_TKS + frac) % FOUR_DECIMALS
    ensures TksAmount(DisplayedTks(whole, frac)) == Ok(whole * WEI_PER_TKS + frac - cut)
  {
    hide TksAmount;
    if frac == 0 {
      cut := 0;
      CutOff(whole, 0, 0);
      ReadWhole(whole);
    } else {
      var k: nat;
      k, cut := DisplayedFraction(frac);
      CutOff(whole, k, cut);
      ReadPointed(whole, FirstFour(Fraction(frac, 18)), k * FOUR_DECIMALS);
    }
  }

  /** The first four digits of a fraction are worth a multiple of 10^14 wei, and what is
      left out is less than that. */
  lemma {:induction false} DisplayedFraction(frac: nat) returns (k: nat, cut: nat)
    requires 0 < frac < WEI_PER_TKS
    ensures cut < FOUR_DECIMALS && frac == k * FOUR_DECIMALS + cut
    ensures
      var shown := FirstFour(Fraction(frac, 18));
      AllDigits(shown) && 0 < |shown| <= 4 && Shift(Value(shown), 18 - |shown|) == k * FOUR_DECIMALS
  {
    hide Fraction, Value, Shift;
    var digits := Fraction(frac, 18);
    FractionWorth(frac);
    if |digits| <= 4 {
      k := ShortFraction(Value(digits), |digits|);
      cut := 0;
    } else {
      k := Value(digits[..4]);
      CutDigits(digits);
      cut := LongFraction(k, Value(digits[4..]), |digits| - 4);
    }
  }

  lemma {:induction false} ShortFraction(v: nat, n: nat) returns (k: nat)
    requires n <= 4
    ensures Shift(v, 18 - n) == k * FOUR_DECIMALS
  {
    k := Shift(v, 4 - n);
    ShiftTwice(v, 4 - n, 14);
    Constants(k);
  }

  lemma {:induction false} CutDigits(digits: string)
    requires AllDigits(digits) && |digits| > 4
    ensures Value(digits) == Shift(Value(digits[..4]), |digits| - 4) + Value(digits[4..])
    ensures Value(digits[4..]) < Pow10(|digits| - 4)
  {
    assert digits == digits[..4] + digits[4..];
    ValueConcat(digits[..4], digits[4..]);
    ValueBound(digits[4..]);
  }

  lemma {:induction false} LongFraction(shown: nat, rest: nat, n: nat) returns (cut: nat)
    requires n <= 14 && rest < Pow10(n)
    ensures cut < FOUR_DECIMALS && Shift(shown, 14) == shown * FOUR_DECIMALS
    ensures Shift(Shift(shown, n) + rest, 14 - n) == shown * FOUR_DECIMALS + cut
  {
    cut := Shift(rest, 14 - n);
    ShiftAdds(Shift(shown, n), rest, 14 - n);
    ShiftTwice(shown, n, 14 - n);
    ShiftBelow(rest, n, 14 - n);
    TokenIsPower();
    Constants(shown);
  }

  lemma {:induction false} ShiftBelow(v: nat, m: nat, n: nat)
    requires v < Pow10(m)
    ensures Shift(v, n) < Pow10(m + n)
  {
    if n > 0 {
      ShiftBelow(v, m, n - 1);
    }
  }

  lemma {:induction false} CutOff(whole: nat, k: nat, cut: nat)
    requires cut < FOUR_DECIMALS
    ensures (whole * WEI_PER_TKS + k * FOUR_DECIMALS + cut) % FOUR_DECIMALS == cut
  {
    assert whole * WEI_PER_TKS + k * FOUR_DECIMALS + cut == (whole * 10_000 + k) * FOUR_DECIMALS + cut;
  }
}
