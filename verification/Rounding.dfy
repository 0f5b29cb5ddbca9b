/**
  The conversion used for narrowing really is rounding to nearest, ties to even:
  no pattern of the format is closer, of two equally close ones it is even, and
  what is further out than that becomes infinite.
*/
module Rounding {
  import opened Words
  import opened Floats

  function Distance(a: nat, b: nat): nat { if a < b then b - a else a - b }

  /** The next pattern is one unit in the last place further. */
  lemma {:induction false} NextNumber(f: Format, p: nat)
    ensures Number(f, p + 1) == Number(f, p) + Pow2(Scale(f, p))
  {
    var b := Pow2(f.fraction);
    var e, m := Exponent(f, p), Fraction(f, p);
    Fields(f, p);
    hide Exponent, Fraction;
    if m + 1 < b {
      FieldsOf(f, e, m + 1);
      SameBinade(Significand(f, p), Pow2(Scale(f, p)));
    } else {
      hide Pow2;
      TimesNext(e, b);
      FieldsOf(f, e + 1, 0);
      assert Exponent(f, p + 1) == e + 1 && Fraction(f, p + 1) == 0;
      NextBinade(f, p, e, b);
    }
  }

  lemma SameBinade(sig: nat, t: nat)
    ensures (sig + 1) * t == sig * t + t
  {}

  lemma TimesNext(e: nat, b: nat)
    ensures Times(e + 1, b) == Times(e, b) + b
  {}

  lemma {:induction false} NextBinade(f: Format, p: nat, e: nat, b: nat)
    requires b == Pow2(f.fraction) && e == Exponent(f, p) && Fraction(f, p) == b - 1
    requires Exponent(f, p + 1) == e + 1 && Fraction(f, p + 1) == 0
    ensures Number(f, p + 1) == Number(f, p) + Pow2(Scale(f, p))
  {
    hide Exponent, Fraction;
    var t := Pow2(Scale(f, p));
    if e == 0 {
      assert Scale(f, p + 1) == Scale(f, p);
      SameBinade(b - 1, t);
    } else {
      assert Scale(f, p + 1) == Scale(f, p) + 1;
      assert Pow2(Scale(f, p + 1)) == 2 * t;
      SameBinade(b + (b - 1), t);
      MulRegroup(b, 2, t);
    }
  }

  lemma {:induction false} NumberMonotone(f: Format, p: nat, q: nat)
    requires p <= q
    ensures Number(f, p) <= Number(f, q)
    decreases q
  {
    if p < q {
      hide Number;
      NumberMonotone(f, p, q - 1);
      NextNumber(f, q - 1);
    }
  }

  /** The two neighbours of a number: the truncated pattern and the next one. */
  lemma {:induction false} Neighbours(f: Format, n: nat)
    ensures var s := LastPlace(f, n); var p := Truncate(f, n, s);
      && Number(f, p) == n - n % Pow2(s)
      && Number(f, p + 1) == n - n % Pow2(s) + Pow2(s)
  {
    var s := LastPlace(f, n);
    var sig := Quotient(n, Pow2(s));
    hide Quotient, Pow2, LastPlace;
    KeptBounds(f, n);
    SignificandOf(f, s - f.unit, sig);
    TruncatedNumber(f, n, s, sig);
    NextNumber(f, Truncate(f, n, s));
  }

  lemma TruncatedNumber(f: Format, n: nat, s: nat, sig: nat)
    requires s >= f.unit && sig == Quotient(n, Pow2(s))
    requires Significand(f, Truncate(f, n, s)) == sig && Scale(f, Truncate(f, n, s)) == s
    ensures Number(f, Truncate(f, n, s)) == n - n % Pow2(s)
  {
    hide Pow2, Truncate, Significand, Scale;
  }

  lemma {:induction false} KeptBounds(f: Format, n: nat)
    ensures var b, s := Pow2(f.fraction), LastPlace(f, n); var sig := Quotient(n, Pow2(s));
      sig < 2 * b && (s == f.unit || sig >= b)
  {
    hide Pow2;
    var b := Pow2(f.fraction);
    var s := LastPlace(f, n);
    var t := Pow2(s);
    var sig := Quotient(n, t);
    Pow2Add(f.fraction, s);
    assert Pow2(f.fraction + s) == b * t;
    LastPlaceRange(f, n);
    hide LastPlace;
    BoundsFromRange(sig, n % t, b, t);
  }

  lemma LastPlaceRange(f: Format, n: nat)
    ensures var s := LastPlace(f, n);
      n < 2 * Pow2(f.fraction + s) && (s == f.unit || Pow2(f.fraction + s) <= n)
  {}

  lemma {:induction false} BoundsFromRange(sig: nat, rest: nat, b: nat, t: nat)
    requires rest < t
    ensures sig * t + rest < 2 * (b * t) ==> sig < 2 * b
    ensures b * t <= sig * t + rest ==> sig >= b
  {
    assert 2 * (b * t) == (2 * b) * t;
    if sig >= 2 * b && sig > 2 * b {
      MulLess(2 * b, sig, t);
    }
    if sig + 1 <= b {
      SameBinade(sig, t);
      if sig + 1 < b {
        MulLess(sig + 1, b, t);
      }
    }
  }

  lemma {:induction false} NumberOrdered(f: Format, p: nat, q: nat)
    requires p < q
    ensures Number(f, p) < Number(f, q)
  {
    hide Number;
    NextNumber(f, p);
    NumberMonotone(f, p + 1, q);
  }

  lemma RoundChoice(f: Format, n: nat)
    requires Round(f, n) < f.infinity
    ensures var s := LastPlace(f, n); var p := Truncate(f, n, s);
      Round(f, n) == if RoundsUp(n % Pow2(s), Pow2(s), p) then p + 1 else p
  {
    hide Pow2, LastPlace, Truncate;
  }

  /** No finite or overflowing pattern is closer to the number than the rounded one;
      when two are equally close the rounded one is even. */
  lemma {:induction false} RoundNearest(f: Format, n: nat, q: nat)
    requires Round(f, n) < f.infinity
    ensures Distance(Number(f, Round(f, n)), n) <= Distance(Number(f, q), n)
    ensures q != Round(f, n) && Distance(Number(f, Round(f, n)), n) == Distance(Number(f, q), n) ==>
      Round(f, n) % 2 == 0
  {
    hide Number, Truncate, LastPlace, Pow2, Round;
    var s := LastPlace(f, n);
    var t := Pow2(s);
    var p := Truncate(f, n, s);
    var rest := n % t;
    RoundChoice(f, n);
    Neighbours(f, n);
    assert 0 <= rest < t;
    if q < p {
      NumberOrdered(f, q, p);
    } else if q > p + 1 {
      NumberOrdered(f, p + 1, q);
    }
    assert RoundsUp(rest, t, p) <==> 2 * rest > t || (2 * rest == t && p % 2 == 1);
  }

  /** Between which patterns n lies, and how far it is from them, decides whether it
      overflows. */
  lemma Between(f: Format, n: nat) returns (p: nat, rest: nat, place: nat)
    requires f.infinity > 0
    ensures Number(f, p) == n - rest && Number(f, p + 1) == n - rest + place && rest < place
    ensures Round(f, n) == f.infinity <==> p >= f.infinity || (p == f.infinity - 1 && RoundsUp(rest, place, p))
  {
    hide Pow2, LastPlace, Truncate, RoundsUp, Number;
    var s := LastPlace(f, n);
    p, place := Truncate(f, n, s), Pow2(s);
    rest := n % place;
    Neighbours(f, n);
  }

  /** A number overflows to infinity exactly from half a place beyond the largest finite
      pattern on. */
  lemma {:induction false} RoundOverflow(f: Format, n: nat)
    requires f.infinity > 0 && f.infinity % 2 == 0
    ensures Round(f, n) == f.infinity <==> 2 * n >= Number(f, f.infinity - 1) + Number(f, f.infinity)
  {
    hide Number, Round;
    var p, rest, place := Between(f, n);
    NumberMonotone(f, f.infinity - 1, f.infinity);
    if p >= f.infinity {
      NumberMonotone(f, f.infinity, p);
    } else if p < f.infinity - 1 {
      NumberMonotone(f, p + 1, f.infinity - 1);
    }
  }
}
