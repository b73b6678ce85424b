/** The scanner's arithmetic on number literals, one char at a time: the value
    of a digit, the integer part (each digit shifts the value one place left),
    the fractional part (each digit is added at a place value that then
    shrinks tenfold), the sign rule of `formatStatic`, and the parenthesis
    depth the scanner's stack of scopes follows. */
module Literals {

  predicate IsDigit(c: char) {
    '0' <= c <= '9'
  }

  ghost predicate AllDigits(s: string) {
    forall i :: 0 <= i < |s| ==> IsDigit(s[i])
  }

  /** `fromChar`: a decimal digit's value, -1 for any other char. */
  function FromChar(c: char): (r: int)
    ensures -1 <= r <= 9
    ensures r >= 0 <==> IsDigit(c)
    ensures r >= 0 ==> c as int == '0' as int + r
  {
    if IsDigit(c) then c as int - '0' as int else -1
  }

  function Digit(c: char): (d: real)
    requires IsDigit(c)
    ensures 0.0 <= d <= 9.0
  {
    FromChar(c) as real
  }

  /** The literal after reading the digits `s` of its integer part, starting
      from the value `v`. */
  function ReadInteger(v: real, s: string): real
    requires AllDigits(s)
    decreases |s|
  {
    if s == [] then v else ReadInteger(10.0 * v + Digit(s[0]), s[1..])
  }

  /** Ten to the power `k`. */
  function Pow10(k: nat): (r: real)
    ensures r >= 1.0
  {
    if k == 0 then 1.0 else 10.0 * Pow10(k - 1)
  }

  /** The positional value of a digit string: each digit times ten to the
      number of digits after it. */
  function Positional(s: string): (r: real)
    requires AllDigits(s)
    ensures r >= 0.0
  {
    if s == [] then 0.0 else Digit(s[0]) * Pow10(|s| - 1) + Positional(s[1..])
  }

  /** Digit-by-digit reading computes the positional value, on top of the
      start value shifted past the digits read. */
  lemma {:induction false} ReadIntegerValue(v: real, s: string)
    requires AllDigits(s)
    ensures ReadInteger(v, s) == v * Pow10(|s|) + Positional(s)
    decreases |s|
  {
    if s != [] {
      ReadIntegerValue(10.0 * v + Digit(s[0]), s[1..]);
      ReadIntegerStep(v, s);
    }
  }

  /** The inductive step of `ReadIntegerValue`: the first digit shifts the
      start value one place left before the rest is read. */
  lemma ReadIntegerStep(v: real, s: string)
    requires AllDigits(s) && s != []
    requires ReadInteger(10.0 * v + Digit(s[0]), s[1..])
          == (10.0 * v + Digit(s[0])) * Pow10(|s| - 1) + Positional(s[1..])
    ensures ReadInteger(v, s) == v * Pow10(|s|) + Positional(s)
  {
    ShiftArith(v, Digit(s[0]), Pow10(|s| - 1), Pow10(|s|), Positional(s[1..]));
  }

  lemma ShiftArith(v: real, d: real, p: real, pow: real, rest: real)
    requires pow == 10.0 * p
    ensures (10.0 * v + d) * p + rest == v * pow + (d * p + rest)
  {
  }

  /** Reading `s` and then one more digit is reading `s + [c]`: the scanner's
      per-char steps compose into `ReadInteger`. */
  lemma {:induction false} ReadIntegerAppend(v: real, s: string, c: char)
    requires AllDigits(s) && IsDigit(c)
    ensures AllDigits(s + [c])
    ensures ReadInteger(v, s + [c]) == ReadInteger(ReadInteger(v, s), [c])
    decreases |s|
  {
    if s != [] {
      assert (s + [c])[1..] == s[1..] + [c];
      ReadIntegerAppend(10.0 * v + Digit(s[0]), s[1..], c);
    }
  }

  /** The literal read so far and the place value of the next fractional
      digit (`currentValue` and `decimalPlace`). */
  datatype Reading = Reading(value: real, place: real)

  /** One digit after the decimal point: its value at the current place is
      added, and the place shrinks tenfold. */
  function FractionStep(v: real, place: real, c: char): (r: Reading)
    requires IsDigit(c)
    ensures r.place == place * 0.1
  {
    Reading(v + Digit(c) * place, place * 0.1)
  }

  /** The literal and the place value after reading the digits `s` after the
      decimal point, starting from the value `v` and the place `place`. */
  function ReadFraction(v: real, place: real, s: string): Reading
    requires AllDigits(s)
    decreases |s|
  {
    if s == [] then Reading(v, place)
    else
      var next := FractionStep(v, place, s[0]);
      ReadFraction(next.value, next.place, s[1..])
  }

  /** A tenth to the power `k`. */
  function Pow01(k: nat): (r: real)
    ensures 0.0 < r <= 1.0
  {
    if k == 0 then 1.0 else 0.1 * Pow01(k - 1)
  }

  /** The digits after the point read as d0 + d1/10 + d2/100 + ... */
  function Scaled(s: string): (r: real)
    requires AllDigits(s)
    ensures r >= 0.0
  {
    if s == [] then 0.0 else Digit(s[0]) + 0.1 * Scaled(s[1..])
  }

  /** Each digit at its own place value: d0 * place + d1 * place / 10 + ... */
  function Weighted(place: real, s: string): real
    requires AllDigits(s)
    decreases |s|
  {
    if s == [] then 0.0 else Digit(s[0]) * place + Weighted(place * 0.1, s[1..])
  }

  /** The place value after `k` digits. */
  function Shrunk(place: real, k: nat): real
    decreases k
  {
    if k == 0 then place else Shrunk(place * 0.1, k - 1)
  }

  /** Reading adds each digit at its own place value. */
  lemma {:induction false} ReadFractionSteps(v: real, place: real, s: string)
    requires AllDigits(s)
    ensures ReadFraction(v, place, s) == Reading(v + Weighted(place, s), Shrunk(place, |s|))
    decreases |s|
  {
    if s != [] {
      assert FractionStep(v, place, s[0]) == Reading(v + Digit(s[0]) * place, place * 0.1);
      ReadFractionSteps(v + Digit(s[0]) * place, place * 0.1, s[1..]);
    }
  }

  lemma {:induction false} WeightedScaled(place: real, s: string)
    requires AllDigits(s)
    ensures Weighted(place, s) == place * Scaled(s)
    decreases |s|
  {
    if s == [] {
      ZeroOne(place, Scaled(s), 1.0);
    } else {
      WeightedScaled(place * 0.1, s[1..]);
      ValueArith(place, Digit(s[0]), Scaled(s[1..]), Scaled(s), Weighted(place, s));
    }
  }

  lemma {:induction false} ShrunkPow(place: real, k: nat)
    ensures Shrunk(place, k) == place * Pow01(k)
    decreases k
  {
    if k == 0 {
      ZeroOne(place, 0.0, Pow01(k));
    } else {
      ShrunkPow(place * 0.1, k - 1);
      PlaceArith(place, Pow01(k - 1), Pow01(k), Shrunk(place, k));
    }
  }

  /** Reading fractional digits adds their scaled value at the first place,
      and leaves the place value shrunk once per digit. */
  lemma ReadFractionValue(v: real, place: real, s: string)
    requires AllDigits(s)
    ensures ReadFraction(v, place, s) == Reading(v + place * Scaled(s), place * Pow01(|s|))
  {
    ReadFractionSteps(v, place, s);
    WeightedScaled(place, s);
    ShrunkPow(place, |s|);
  }

  lemma ZeroOne(a: real, zero: real, one: real)
    requires zero == 0.0 && one == 1.0
    ensures a * zero == 0.0 && a * one == a
  {
  }

  lemma ValueArith(place: real, d: real, rest: real, scaled: real, now: real)
    requires scaled == d + 0.1 * rest
    requires now == d * place + (place * 0.1) * rest
    ensures now == place * scaled
  {
  }

  lemma PlaceArith(place: real, p: real, pow: real, now: real)
    requires pow == 0.1 * p
    requires now == (place * 0.1) * p
    ensures now == place * pow
  {
  }

  /** The fractional steps compose like the integer ones. */
  lemma {:induction false} ReadFractionAppend(v: real, place: real, s: string, c: char)
    requires AllDigits(s) && IsDigit(c)
    ensures AllDigits(s + [c])
    ensures ReadFraction(v, place, s + [c])
         == FractionStep(ReadFraction(v, place, s).value, ReadFraction(v, place, s).place, c)
    decreases |s|
  {
    if s == [] {
      assert s + [c] == [c];
    } else {
      assert (s + [c])[0] == s[0] && (s + [c])[1..] == s[1..] + [c];
      var next := FractionStep(v, place, s[0]);
      ReadFractionAppend(next.value, next.place, s[1..], c);
    }
  }

  /** Fractional digits never carry into the integer part: read from the
      first place after the point they add less than one. */
  lemma {:induction false} ScaledBelowTen(s: string)
    requires AllDigits(s)
    ensures Scaled(s) < 10.0
    decreases |s|
  {
    if s != [] {
      ScaledBelowTen(s[1..]);
    }
  }

  /** `formatStatic`: a literal read after a minus sign is made non-positive;
      its magnitude never changes. */
  function FormatStatic(negative: bool, v: real): (r: real)
    ensures !negative ==> r == v
    ensures negative ==> r <= 0.0 && (r == v || r == -v)
    ensures negative && v > 0.0 ==> r == -v
  {
    if negative && v >= 0.0 then -v else v
  }

  /** Opening minus closing parentheses in `s`. */
  function Depth(s: string): int {
    if s == [] then 0
    else Depth(s[..|s| - 1]) + (if s[|s| - 1] == '(' then 1 else if s[|s| - 1] == ')' then -1 else 0)
  }

  /** The depth after one more char. */
  lemma DepthStep(s: string, i: nat)
    requires i < |s|
    ensures Depth(s[..i + 1]) == Depth(s[..i]) + (if s[i] == '(' then 1 else if s[i] == ')' then -1 else 0)
  {
    assert s[..i + 1][..i] == s[..i];
  }
}
