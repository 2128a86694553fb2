/**
  Which entry sits under the pointer. Angles are measured in whole turns
  (1 turn = 2π radians) as exact reals: sector `i` is drawn from
  `angle + Prefix(i)/total` to `angle + Prefix(i+1)/total`, and the pointer
  is fixed at 12 o'clock, which is 3/4 turn in the canvas convention
  (0 at 3 o'clock, increasing clockwise).
 */
module Pointer {

  import opened Wrappers
  import opened Menus

  /** JavaScript's truncation toward zero of a number. */
  function Trunc(x: real): int {
    if x >= 0.0 then x.Floor else -((-x).Floor)
  }

  /** JavaScript's `x % 1` (one turn) on an exact number: the remainder has the sign of `x`. */
  function TruncMod1(x: real): (r: real)
    ensures -1.0 < r < 1.0
    ensures x >= 0.0 ==> r >= 0.0
    ensures x <= 0.0 ==> r <= 0.0
    ensures (x - r).Floor as real == x - r
  {
    x - Trunc(x) as real
  }

  /** The pointer position, `3 * Math.PI / 2`, in turns. */
  const PointerTurn: real := 0.75

  /** `adjustedAngle` as a fraction of a turn: `(2π - currentAngle + pointerAngle) % 2π`. */
  function PointerFraction(angle: real): (f: real)
    ensures angle <= 1.0 + PointerTurn ==> 0.0 <= f < 1.0 && f == 1.0 + PointerTurn - angle - (1.0 + PointerTurn - angle).Floor as real
  {
    TruncMod1(1.0 - angle + PointerTurn)
  }

  /**
    The first index `j >= i` whose cumulative weight reaches `x`, the pointer
    fraction scaled by the total: the loop's test `adjustedAngle <= angleSum`
    with both sides multiplied by `total / 2π`.
   */
  function CoverFrom(menus: seq<Menu>, x: real, i: nat): (r: Option<nat>)
    requires i <= |menus|
    decreases |menus| - i
    ensures r.Some? ==> i <= r.value < |menus| && x <= Prefix(menus, r.value + 1) as real
    ensures r.Some? ==> forall j :: i < j <= r.value ==> Prefix(menus, j) as real < x
    ensures r.None? ==> forall j :: i < j <= |menus| ==> Prefix(menus, j) as real < x
  {
    if i == |menus| then None
    else if x <= Prefix(menus, i + 1) as real then Some(i)
    else CoverFrom(menus, x, i + 1)
  }

  /** The pointer fraction `f` in weight units: `f * total`. */
  function Scaled(menus: seq<Menu>, f: real): real {
    f * Sum(menus) as real
  }

  /** The index of the entry covering the pointer fraction `f`. */
  function Cover(menus: seq<Menu>, f: real): Option<nat> {
    CoverFrom(menus, Scaled(menus, f), 0)
  }

  /** The entry `updateResult` reports for a wheel at `angle`; `None` for an empty list (`null`). */
  function Winner(menus: seq<Menu>, angle: real): (r: Option<Menu>)
    ensures r.Some? ==> r.value in menus
  {
    if menus == [] then None
    else
      match Cover(menus, PointerFraction(angle))
      case None => None
      case Some(i) => Some(menus[i])
  }

  /** With exact arithmetic a non-empty list always has an entry covering any fraction up to one turn. */
  lemma CoverExists(menus: seq<Menu>, f: real)
    requires AllPositive(menus) && menus != []
    requires f <= 1.0
    ensures Cover(menus, f).Some?
  {
    var t := Sum(menus) as real;
    SumBound(menus);
    PrefixFull(menus);
    assert Scaled(menus, f) <= t by {
      assert f * t <= 1.0 * t;
    }
  }

  /** A wheel whose angle is kept in (-1, 1) turn always reports a winner when the list is non-empty. */
  lemma WinnerExists(menus: seq<Menu>, angle: real)
    requires AllPositive(menus) && menus != []
    requires -1.0 < angle < 1.0
    ensures Winner(menus, angle).Some?
  {
    CoverExists(menus, PointerFraction(angle));
  }

  lemma CoverFromInterval(menus: seq<Menu>, x: real, i: nat)
    requires AllPositive(menus)
    requires i < |menus|
    ensures CoverFrom(menus, x, 0) == Some(i) <==>
      (i == 0 || Prefix(menus, i) as real < x) && x <= Prefix(menus, i + 1) as real
  {
    var r := CoverFrom(menus, x, 0);
    var p0 := Prefix(menus, i) as real;
    var p1 := Prefix(menus, i + 1) as real;
    if r == Some(i) {
      if i > 0 {
        assert p0 < x;
      }
    } else if (i == 0 || p0 < x) && x <= p1 {
      if r.Some? {
        var k := r.value;
        if k < i {
          assert x <= Prefix(menus, k + 1) as real;
          if k + 1 < i {
            PrefixIncreasing(menus, k + 1, i);
          }
          assert false;
        } else {
          assert false;
        }
      } else {
        assert false;
      }
    }
  }

  /**
    Entry `i` covers `f` exactly when `f * total` lies in its range
    `(Prefix(i), Prefix(i+1)]` (closed at the bottom for the first entry): a
    fraction on a boundary goes to the earlier entry.
   */
  lemma CoverInterval(menus: seq<Menu>, f: real, i: nat)
    requires AllPositive(menus)
    requires i < |menus|
    ensures Cover(menus, f) == Some(i) <==>
      (i == 0 || Prefix(menus, i) as real < Scaled(menus, f)) && Scaled(menus, f) <= Prefix(menus, i + 1) as real
  {
    CoverFromInterval(menus, Scaled(menus, f), i);
  }

  /** `f` exactly on the upper boundary of entry `k` is resolved to `k`, not to the entry after it. */
  lemma CoverBoundary(menus: seq<Menu>, f: real, k: nat)
    requires AllPositive(menus)
    requires k < |menus|
    requires Scaled(menus, f) == Prefix(menus, k + 1) as real
    ensures Cover(menus, f) == Some(k)
  {
    PrefixStep(menus, k);
    CoverInterval(menus, f, k);
  }

  /** The fraction of the wheel taken by the first `k` entries: where sector `k` starts. */
  function Share(menus: seq<Menu>, k: nat): real
    requires k <= |menus|
  {
    if Sum(menus) == 0 then 0.0 else Prefix(menus, k) as real / Sum(menus) as real
  }

  lemma AddFractions(a: real, b: real, t: real)
    requires t > 0.0
    ensures (a + b) / t == a / t + b / t
  {
    assert (a / t + b / t) * t == a / t * t + b / t * t;
  }

  /** The loop's running sum: each entry adds `count / total` to the share before it. */
  lemma ShareStep(menus: seq<Menu>, k: nat)
    requires AllPositive(menus)
    requires k < |menus|
    ensures Sum(menus) > 0
    ensures Share(menus, k + 1) == Share(menus, k) + menus[k].count as real / Sum(menus) as real
  {
    SumBound(menus);
    PrefixStep(menus, k);
    var a, c, t := Prefix(menus, k) as real, menus[k].count as real, Sum(menus) as real;
    assert Share(menus, k) == a / t;
    assert Share(menus, k + 1) == (a + c) / t;
    AddFractions(a, c, t);
  }

  lemma CompareFraction(f: real, a: real, t: real)
    requires t > 0.0
    ensures f <= a / t <==> f * t <= a
  {
    assert a / t * t == a;
    if f <= a / t {
      assert f * t <= a / t * t;
    }
  }

  /** The loop's test `adjustedAngle <= angleSum` is the test `CoverFrom` makes in weight units. */
  lemma ShareTest(menus: seq<Menu>, f: real, k: nat)
    requires AllPositive(menus) && menus != []
    requires k <= |menus|
    ensures f <= Share(menus, k) <==> Scaled(menus, f) <= Prefix(menus, k) as real
  {
    SumBound(menus);
    CompareFraction(f, Prefix(menus, k) as real, Sum(menus) as real);
  }

  /** Entry `i` covers `f` only if `f` lies between the shares where its sector starts and ends. */
  lemma CoverWithinShares(menus: seq<Menu>, f: real, i: nat)
    requires AllPositive(menus)
    requires f >= 0.0
    requires Cover(menus, f) == Some(i)
    ensures Share(menus, i) <= f <= Share(menus, i + 1)
  {
    var t := Sum(menus) as real;
    var p0 := Prefix(menus, i) as real;
    var p1 := Prefix(menus, i + 1) as real;
    SumBound(menus);
    assert p0 <= f * t <= p1 by {
      CoverInterval(menus, f, i);
      if i == 0 {
        assert menus[..0] == [];
        assert 0.0 <= f * t;
      }
    }
    DivideBounds(p0, p1, f, t);
  }

  /** Dividing the bounds `p0 <= f * t <= p1` by a positive `t`. */
  lemma DivideBounds(p0: real, p1: real, f: real, t: real)
    requires t > 0.0
    requires p0 <= f * t <= p1
    ensures p0 / t <= f <= p1 / t
  {
    assert p0 / t * t == p0;
    assert p1 / t * t == p1;
  }

  /**
    The resolved winner agrees with the drawing: the 12 o'clock position,
    `PointerTurn` plus some whole number of turns, lies inside the sector the
    winner was drawn in.
   */
  lemma PointerInSector(menus: seq<Menu>, angle: real, i: nat)
    requires AllPositive(menus)
    requires -1.0 < angle < 1.0
    requires Cover(menus, PointerFraction(angle)) == Some(i)
    ensures var turns := 1 - (1.0 + PointerTurn - angle).Floor;
      angle + Share(menus, i) <= PointerTurn + turns as real <= angle + Share(menus, i + 1)
  {
    var f := PointerFraction(angle);
    CoverWithinShares(menus, f, i);
    assert angle + f == PointerTurn + (1 - (1.0 + PointerTurn - angle).Floor) as real;
  }

  /** Two entries weighted 1 and 3: a quarter and three quarters of the wheel. */
  lemma TwoEntryExample()
    ensures var menus := [Menu("A", 1), Menu("B", 3)];
      && Cover(menus, 0.1) == Some(0)
      && Cover(menus, 0.25) == Some(0)
      && Cover(menus, 0.5) == Some(1)
      && Winner(menus, 0.0) == Some(Menu("B", 3))
  {
    var menus := [Menu("A", 1), Menu("B", 3)];
    assert Prefix(menus, 1) == 1 by { assert menus[..1] == [Menu("A", 1)]; }
    assert Prefix(menus, 2) == 4 by { assert menus[..2] == menus; }
    assert Sum(menus) == 4;
  }
}
