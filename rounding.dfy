/** pandas' Series.round(places), for the two precisions the pipeline uses
    (2 places for money, 0 for clicks): numpy scales by 10^places, rounds to
    the nearest integer with ties to the even one (rint), and scales back.
    Values are exact reals here, so the binary representation error of a
    float (2.675 stored just below 2.675) is not part of the model. */
module Rounding {

  /** Nearest integer, ties to the even neighbour. */
  function RoundHalfEven(y: real): (n: int)
    ensures n as real - 0.5 <= y <= n as real + 0.5
  {
    var f := y.Floor;
    var frac := y - f as real;
    if frac < 0.5 then f
    else if frac > 0.5 then f + 1
    else if f % 2 == 0 then f
    else f + 1
  }

  predicate SupportedPlaces(places: nat) {
    places == 0 || places == 2
  }

  function Round(x: real, places: nat): real
    requires SupportedPlaces(places)
  {
    if places == 0 then RoundHalfEven(x) as real
    else RoundHalfEven(x * 100.0) as real / 100.0
  }

  /** Half a unit of the last kept place. */
  function HalfUnit(places: nat): real
    requires SupportedPlaces(places)
  {
    if places == 0 then 0.5 else 0.005
  }

  /** An exact tie goes to the even neighbour. */
  lemma RoundHalfEvenTie(y: real)
    requires y - y.Floor as real == 0.5
    ensures RoundHalfEven(y) % 2 == 0
    ensures RoundHalfEven(y) as real - y == 0.5 || y - RoundHalfEven(y) as real == 0.5
  {
  }

  /** An integer is its own nearest integer. */
  lemma RoundHalfEvenInt(n: int)
    ensures RoundHalfEven(n as real) == n
  {
  }

  /** Rounding to the nearest integer is monotone (ties included). */
  lemma RoundHalfEvenMonotone(x: real, y: real)
    requires x <= y
    ensures RoundHalfEven(x) <= RoundHalfEven(y)
  {
    var fx, fy := x.Floor, y.Floor;
    if fx == fy {
      assert x - fx as real <= y - fy as real;
    } else {
      assert fx < fy;
    }
  }

  /** The rounded value lies within half a unit of the last kept place. */
  lemma RoundIsNearest(x: real, places: nat)
    requires SupportedPlaces(places)
    ensures -HalfUnit(places) <= Round(x, places) - x <= HalfUnit(places)
  {
  }

  /** Rounding an already rounded value changes nothing. */
  lemma RoundIdempotent(x: real, places: nat)
    requires SupportedPlaces(places)
    ensures Round(Round(x, places), places) == Round(x, places)
  {
    if places == 0 {
      RoundHalfEvenInt(RoundHalfEven(x));
    } else {
      var k := RoundHalfEven(x * 100.0);
      assert Round(x, places) * 100.0 == k as real;
      RoundHalfEvenInt(k);
    }
  }

  /** A larger value never rounds to a smaller one. */
  lemma RoundMonotone(x: real, y: real, places: nat)
    requires SupportedPlaces(places) && x <= y
    ensures Round(x, places) <= Round(y, places)
  {
    if places == 0 {
      RoundHalfEvenMonotone(x, y);
    } else {
      RoundHalfEvenMonotone(x * 100.0, y * 100.0);
    }
  }

  /** A non-negative value rounds to a non-negative value. */
  lemma RoundNonNegative(x: real, places: nat)
    requires SupportedPlaces(places) && x >= 0.0
    ensures Round(x, places) >= 0.0
  {
    RoundMonotone(0.0, x, places);
    RoundHalfEvenInt(0);
  }
}
