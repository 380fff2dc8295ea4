/**
 * `rayBoxIntersection` (rayboxintersection.swift): the slab test of a ray
 * against an axis-aligned box, as written. Axis 0 opens the parameter
 * interval; axes 1 and 2 narrow it, with an early miss when the intervals are
 * disjoint, but only when their direction component is non-negative.
 */
module RayBox {
  import opened Bytes

  /** The `(flag, tmin)` pair the function returns. */
  datatype Outcome = Outcome(flag: bool, tmin: real)

  /** The value returned with a miss. */
  const Miss := Outcome(false, -1.0)

  /** At least three coordinates: the `[Double]` arguments, of which only the first three are read. */
  predicate IsVector(v: seq<real>)
  {
    |v| >= 3
  }

  /** A ray and box the test can divide by: vectors of at least three components, no zero direction component. */
  predicate WellFormed(origin: seq<real>, direction: seq<real>, vmin: seq<real>, vmax: seq<real>)
  {
    IsVector(origin) && IsVector(direction) && IsVector(vmin) && IsVector(vmax) &&
    direction[0] != 0.0 && direction[1] != 0.0 && direction[2] != 0.0
  }

  /** The parameter at which the ray enters the slab of axis `i`. */
  function Entry(origin: seq<real>, direction: seq<real>, vmin: seq<real>, vmax: seq<real>, i: nat): real
    requires WellFormed(origin, direction, vmin, vmax) && i < 3
  {
    if direction[i] >= 0.0 then (vmin[i] - origin[i]) / direction[i] else (vmax[i] - origin[i]) / direction[i]
  }

  /** The parameter at which the ray leaves the slab of axis `i`. */
  function Exit(origin: seq<real>, direction: seq<real>, vmin: seq<real>, vmax: seq<real>, i: nat): real
    requires WellFormed(origin, direction, vmin, vmax) && i < 3
  {
    if direction[i] >= 0.0 then (vmax[i] - origin[i]) / direction[i] else (vmin[i] - origin[i]) / direction[i]
  }

  /** The axes that take part: axis 0 always, axes 1 and 2 only with a non-negative direction. */
  predicate Tested(direction: seq<real>, i: nat)
    requires IsVector(direction) && i < 3
  {
    i == 0 || direction[i] >= 0.0
  }

  /** The largest entry parameter over the tested axes. */
  function LastEntry(origin: seq<real>, direction: seq<real>, vmin: seq<real>, vmax: seq<real>): real
    requires WellFormed(origin, direction, vmin, vmax)
  {
    var t0 := Entry(origin, direction, vmin, vmax, 0);
    var t1 := if Tested(direction, 1) then Max(t0, Entry(origin, direction, vmin, vmax, 1)) else t0;
    if Tested(direction, 2) then Max(t1, Entry(origin, direction, vmin, vmax, 2)) else t1
  }

  /**
   * What the sequential test decides, stated all at once: a hit exactly when
   * every tested axis is entered no later than every other tested axis is
   * left (no axis is compared with itself), with the last entry as `tmin`.
   */
  function Reference(origin: seq<real>, direction: seq<real>, vmin: seq<real>, vmax: seq<real>): Outcome
    requires WellFormed(origin, direction, vmin, vmax)
  {
    if forall i: nat, j: nat | i < 3 && j < 3 && i != j && Tested(direction, i) && Tested(direction, j) ::
         Entry(origin, direction, vmin, vmax, i) <= Exit(origin, direction, vmin, vmax, j)
    then Outcome(true, LastEntry(origin, direction, vmin, vmax))
    else Miss
  }

  /** `rayBoxIntersection`, with its early returns. */
  method RayBoxIntersection(origin: seq<real>, direction: seq<real>, vmin: seq<real>, vmax: seq<real>)
    returns (result: Outcome)
    requires WellFormed(origin, direction, vmin, vmax)
    ensures result == Reference(origin, direction, vmin, vmax)
    ensures !result.flag ==> result == Miss
  {
    ghost var e0, x0 := Entry(origin, direction, vmin, vmax, 0), Exit(origin, direction, vmin, vmax, 0);
    ghost var e1, x1 := Entry(origin, direction, vmin, vmax, 1), Exit(origin, direction, vmin, vmax, 1);
    ghost var e2, x2 := Entry(origin, direction, vmin, vmax, 2), Exit(origin, direction, vmin, vmax, 2);
    var tmin: real;
    var tmax: real;

    if direction[0] >= 0.0 {
      tmin := (vmin[0] - origin[0]) / direction[0];
      tmax := (vmax[0] - origin[0]) / direction[0];
    } else {
      tmin := (vmax[0] - origin[0]) / direction[0];
      tmax := (vmin[0] - origin[0]) / direction[0];
    }
    assert tmin == e0 && tmax == x0;

    if direction[1] >= 0.0 {
      var tymin := (vmin[1] - origin[1]) / direction[1];
      var tymax := (vmax[1] - origin[1]) / direction[1];
      assert tymin == e1 && tymax == x1;

      if tmin > tymax || tymin > tmax {
        CrossFails(origin, direction, vmin, vmax, if tmin > tymax then 0 else 1, if tmin > tymax then 1 else 0);
        return Miss;
      }

      if tymin > tmin {
        tmin := tymin;
      }

      if tymax < tmax {
        tmax := tymax;
      }
    }
    assert tmin == (if Tested(direction, 1) then Max(e0, e1) else e0);

    if direction[2] >= 0.0 {
      var tzmin := (vmin[2] - origin[2]) / direction[2];
      var tzmax := (vmax[2] - origin[2]) / direction[2];
      assert tzmin == e2 && tzmax == x2;

      if tmin > tzmax || tzmin > tmax {
        if tmin > tzmax {
          CrossFails(origin, direction, vmin, vmax, if tmin == e0 then 0 else 1, 2);
        } else {
          CrossFails(origin, direction, vmin, vmax, 2, if tmax == x0 then 0 else 1);
        }
        return Miss;
      }

      if tzmin > tmin {
        tmin := tzmin;
      }

      if tzmax < tmax {
        tmax := tzmax;
      }
    }

    result := Outcome(true, tmin);
  }

  /** One failing pair of tested axes makes the reference a miss. */
  lemma CrossFails(origin: seq<real>, direction: seq<real>, vmin: seq<real>, vmax: seq<real>, i: nat, j: nat)
    requires WellFormed(origin, direction, vmin, vmax)
    requires i < 3 && j < 3 && i != j && Tested(direction, i) && Tested(direction, j)
    requires Entry(origin, direction, vmin, vmax, i) > Exit(origin, direction, vmin, vmax, j)
    ensures Reference(origin, direction, vmin, vmax) == Miss
  {
  }

  // ----- What a hit means -----

  /** The point of the ray at parameter `t` lies in the slab of axis `i`. */
  predicate InSlab(origin: seq<real>, direction: seq<real>, vmin: seq<real>, vmax: seq<real>, i: nat, t: real)
    requires WellFormed(origin, direction, vmin, vmax) && i < 3
  {
    vmin[i] <= origin[i] + t * direction[i] <= vmax[i]
  }

  /** The point of the ray at parameter `t` lies in the box. */
  predicate InBox(origin: seq<real>, direction: seq<real>, vmin: seq<real>, vmax: seq<real>, t: real)
    requires WellFormed(origin, direction, vmin, vmax)
  {
    InSlab(origin, direction, vmin, vmax, 0, t) && InSlab(origin, direction, vmin, vmax, 1, t) &&
    InSlab(origin, direction, vmin, vmax, 2, t)
  }

  /** A box whose lower corner is below its upper corner on every axis. */
  predicate Ordered(vmin: seq<real>, vmax: seq<real>)
    requires IsVector(vmin) && IsVector(vmax)
  {
    vmin[0] <= vmax[0] && vmin[1] <= vmax[1] && vmin[2] <= vmax[2]
  }

  /** `a ≤ t·d` exactly when `a/d ≤ t`, for positive `d`. */
  lemma DivideBelow(a: real, d: real, t: real)
    requires d > 0.0
    ensures a / d <= t <==> a <= t * d
  {
    var q := a / d;
    assert q * d == a;
    if q <= t {
      assert (t - q) * d >= 0.0;
    } else {
      assert (q - t) * d > 0.0;
    }
  }

  /** `t·d ≤ a` exactly when `t ≤ a/d`, for positive `d`. */
  lemma DivideAbove(a: real, d: real, t: real)
    requires d > 0.0
    ensures t <= a / d <==> t * d <= a
  {
    var q := a / d;
    assert q * d == a;
    if t <= q {
      assert (q - t) * d >= 0.0;
    } else {
      assert (t - q) * d > 0.0;
    }
  }

  /** `a / d` is `(-a) / (-d)`. */
  lemma NegateBoth(a: real, d: real)
    requires d != 0.0
    ensures a / d == (-a) / (-d)
  {
  }

  /** Along a positive direction, `t · d` lies in `[lo, hi]` exactly for `t` in `[lo / d, hi / d]`. */
  lemma SlabForward(lo: real, hi: real, d: real, t: real)
    requires d > 0.0
    ensures lo <= t * d <= hi <==> lo / d <= t <= hi / d
  {
    DivideBelow(lo, d, t);
    DivideAbove(hi, d, t);
  }

  /** Along a negative direction, `t · d` lies in `[lo, hi]` exactly for `t` in `[hi / d, lo / d]`. */
  lemma SlabBackward(lo: real, hi: real, d: real, t: real)
    requires d < 0.0
    ensures lo <= t * d <= hi <==> hi / d <= t <= lo / d
  {
    var e := -d;
    NegateBoth(hi, d);
    NegateBoth(lo, d);
    assert t * d == -(t * e);
    assert lo <= t * d <==> t * e <= -lo;
    assert t * d <= hi <==> -hi <= t * e;
    DivideBelow(-hi, e, t);
    DivideAbove(-lo, e, t);
  }

  /** The slab of axis `i` is crossed exactly between its entry and exit parameters. */
  lemma SlabMembership(origin: seq<real>, direction: seq<real>, vmin: seq<real>, vmax: seq<real>, i: nat, t: real)
    requires WellFormed(origin, direction, vmin, vmax) && i < 3
    ensures InSlab(origin, direction, vmin, vmax, i, t) <==>
            Entry(origin, direction, vmin, vmax, i) <= t <= Exit(origin, direction, vmin, vmax, i)
  {
    var d := direction[i];
    var lo, hi := vmin[i] - origin[i], vmax[i] - origin[i];
    assert InSlab(origin, direction, vmin, vmax, i, t) <==> lo <= t * d <= hi;
    if d > 0.0 {
      SlabForward(lo, hi, d, t);
    } else {
      SlabBackward(lo, hi, d, t);
    }
  }

  /** A point in the box crosses every slab, so every entry is at or before every exit. */
  lemma InBoxCrossings(origin: seq<real>, direction: seq<real>, vmin: seq<real>, vmax: seq<real>, t: real)
    requires WellFormed(origin, direction, vmin, vmax)
    requires InBox(origin, direction, vmin, vmax, t)
    ensures forall i: nat | i < 3 ::
      Entry(origin, direction, vmin, vmax, i) <= t <= Exit(origin, direction, vmin, vmax, i)
  {
    SlabMembership(origin, direction, vmin, vmax, 0, t);
    SlabMembership(origin, direction, vmin, vmax, 1, t);
    SlabMembership(origin, direction, vmin, vmax, 2, t);
  }

  /** With both later direction components non-negative, every axis is tested. */
  lemma AllTestedMeaning(origin: seq<real>, direction: seq<real>, vmin: seq<real>, vmax: seq<real>)
    requires WellFormed(origin, direction, vmin, vmax) && Ordered(vmin, vmax)
    requires direction[1] >= 0.0 && direction[2] >= 0.0
    ensures Reference(origin, direction, vmin, vmax).flag <==> exists t :: InBox(origin, direction, vmin, vmax, t)
    ensures Reference(origin, direction, vmin, vmax).flag ==>
      InBox(origin, direction, vmin, vmax, Reference(origin, direction, vmin, vmax).tmin) &&
      forall t :: InBox(origin, direction, vmin, vmax, t) ==> Reference(origin, direction, vmin, vmax).tmin <= t
  {
    SymmetricSlabExact(origin, direction, vmin, vmax);
  }

  /** On an ordered box each slab is entered no later than it is left. */
  lemma EntryBeforeExit(origin: seq<real>, direction: seq<real>, vmin: seq<real>, vmax: seq<real>, i: nat)
    requires WellFormed(origin, direction, vmin, vmax) && Ordered(vmin, vmax) && i < 3
    ensures Entry(origin, direction, vmin, vmax, i) <= Exit(origin, direction, vmin, vmax, i)
  {
    var d := direction[i];
    var lo, hi := vmin[i] - origin[i], vmax[i] - origin[i];
    assert lo <= hi;
    if d > 0.0 {
      assert hi / d * d == hi;
      DivideBelow(lo, d, hi / d);
    } else {
      assert lo / d == (-lo) / (-d) && hi / d == (-hi) / (-d);
      assert (-lo) / (-d) * (-d) == -lo;
      DivideBelow(-hi, -d, (-lo) / (-d));
    }
  }

  /**
   * On a hit over an ordered box, `tmin` is the latest entry of a tested
   * axis and lies at or before every tested exit: the final interval
   * `[tmin, tmax]` is not empty.
   */
  lemma HitInterval(origin: seq<real>, direction: seq<real>, vmin: seq<real>, vmax: seq<real>)
    requires WellFormed(origin, direction, vmin, vmax) && Ordered(vmin, vmax)
    requires Reference(origin, direction, vmin, vmax).flag
    ensures forall i: nat | i < 3 && Tested(direction, i) ::
      Entry(origin, direction, vmin, vmax, i) <= Reference(origin, direction, vmin, vmax).tmin <=
      Exit(origin, direction, vmin, vmax, i)
  {
    EntryBeforeExit(origin, direction, vmin, vmax, 0);
    EntryBeforeExit(origin, direction, vmin, vmax, 1);
    EntryBeforeExit(origin, direction, vmin, vmax, 2);
  }

  // ----- Axes with a negative direction -----

  /** With both later direction components negative, only axis 0 is tested and the ray always hits. */
  lemma OnlyAxisZero(origin: seq<real>, direction: seq<real>, vmin: seq<real>, vmax: seq<real>)
    requires WellFormed(origin, direction, vmin, vmax)
    requires direction[1] < 0.0 && direction[2] < 0.0
    ensures Reference(origin, direction, vmin, vmax) == Outcome(true, Entry(origin, direction, vmin, vmax, 0))
  {
  }

  /**
   * An axis whose direction component is negative plays no part: its origin
   * coordinate and its box bounds can be anything.
   */
  lemma SkippedAxisIgnored(origin: seq<real>, direction: seq<real>, vmin: seq<real>, vmax: seq<real>,
                           i: nat, o: real, lo: real, hi: real)
    requires WellFormed(origin, direction, vmin, vmax)
    requires (i == 1 || i == 2) && direction[i] < 0.0
    ensures Reference(origin[i := o], direction, vmin[i := lo], vmax[i := hi]) == Reference(origin, direction, vmin, vmax)
  {
    var origin', vmin', vmax' := origin[i := o], vmin[i := lo], vmax[i := hi];
    forall j: nat | j < 3 && j != i
      ensures Entry(origin', direction, vmin', vmax', j) == Entry(origin, direction, vmin, vmax, j)
      ensures Exit(origin', direction, vmin', vmax', j) == Exit(origin, direction, vmin, vmax, j)
    {
    }
  }

  /** The commented-out example call after the function: from the centre of the cube `[-1, 1]³` along `(1, 1, 1)`. */
  lemma CentreExample()
    ensures Reference([0.0, 0.0, 0.0], [1.0, 1.0, 1.0], [-1.0, -1.0, -1.0], [1.0, 1.0, 1.0]) == Outcome(true, -1.0)
  {
    var o, d, lo, hi := [0.0, 0.0, 0.0], [1.0, 1.0, 1.0], [-1.0, -1.0, -1.0], [1.0, 1.0, 1.0];
    assert Entry(o, d, lo, hi, 0) == -1.0 && Entry(o, d, lo, hi, 1) == -1.0 && Entry(o, d, lo, hi, 2) == -1.0;
    assert Exit(o, d, lo, hi, 0) == 1.0 && Exit(o, d, lo, hi, 1) == 1.0 && Exit(o, d, lo, hi, 2) == 1.0;
  }

  /**
   * The test treats the ray as a whole line: a box behind the origin is a
   * hit, with a negative `tmin`.
   */
  lemma BehindOriginExample()
    ensures Reference([10.0, 10.0, 10.0], [1.0, 1.0, 1.0], [-1.0, -1.0, -1.0], [1.0, 1.0, 1.0]) == Outcome(true, -11.0)
  {
    var o, d, lo, hi := [10.0, 10.0, 10.0], [1.0, 1.0, 1.0], [-1.0, -1.0, -1.0], [1.0, 1.0, 1.0];
    assert Entry(o, d, lo, hi, 0) == -11.0 && Entry(o, d, lo, hi, 1) == -11.0 && Entry(o, d, lo, hi, 2) == -11.0;
    assert Exit(o, d, lo, hi, 0) == -9.0 && Exit(o, d, lo, hi, 1) == -9.0 && Exit(o, d, lo, hi, 2) == -9.0;
  }

  /**
   * A ray whose axis-1 direction is negative is reported to hit a box it
   * never meets: it is inside the x and z slabs for `t` in `[1, 2]` but in
   * the y slab only for `t` in `[-2, -1]`.
   */
  lemma SkippedAxisAccepts()
    ensures var o, d, lo, hi := [0.0, 0.0, 0.0], [1.0, -1.0, 1.0], [1.0, 1.0, 1.0], [2.0, 2.0, 2.0];
      Reference(o, d, lo, hi) == Outcome(true, 1.0) &&
      !InBox(o, d, lo, hi, 1.0) &&
      !(exists t :: InBox(o, d, lo, hi, t))
  {
    var o, d, lo, hi := [0.0, 0.0, 0.0], [1.0, -1.0, 1.0], [1.0, 1.0, 1.0], [2.0, 2.0, 2.0];
    assert Entry(o, d, lo, hi, 0) == 1.0 && Exit(o, d, lo, hi, 0) == 2.0;
    assert Entry(o, d, lo, hi, 2) == 1.0 && Exit(o, d, lo, hi, 2) == 2.0;
    assert Entry(o, d, lo, hi, 1) == -2.0 && Exit(o, d, lo, hi, 1) == -1.0;
    SymmetricSlabExact(o, d, lo, hi);
    assert Entry(o, d, lo, hi, 0) > Exit(o, d, lo, hi, 1);
  }

  // ----- The slab test with every axis tested -----

  /** The largest entry parameter over all three axes. */
  function FullEntry(origin: seq<real>, direction: seq<real>, vmin: seq<real>, vmax: seq<real>): real
    requires WellFormed(origin, direction, vmin, vmax)
  {
    Max(Max(Entry(origin, direction, vmin, vmax, 0), Entry(origin, direction, vmin, vmax, 1)),
        Entry(origin, direction, vmin, vmax, 2))
  }

  /** The outcome of the slab test that narrows the interval on every axis, whatever the sign of its direction. */
  function SymmetricSlab(origin: seq<real>, direction: seq<real>, vmin: seq<real>, vmax: seq<real>): Outcome
    requires WellFormed(origin, direction, vmin, vmax)
  {
    if forall i: nat, j: nat | i < 3 && j < 3 && i != j ::
         Entry(origin, direction, vmin, vmax, i) <= Exit(origin, direction, vmin, vmax, j)
    then Outcome(true, FullEntry(origin, direction, vmin, vmax))
    else Miss
  }

  /** Where every axis is tested anyway, the function as written and the symmetric test agree. */
  lemma AgreesWhenAllTested(origin: seq<real>, direction: seq<real>, vmin: seq<real>, vmax: seq<real>)
    requires WellFormed(origin, direction, vmin, vmax)
    requires direction[1] >= 0.0 && direction[2] >= 0.0
    ensures Reference(origin, direction, vmin, vmax) == SymmetricSlab(origin, direction, vmin, vmax)
  {
  }

  /**
   * On an ordered box the symmetric test is exact: it reports a hit exactly
   * when some point of the line lies in the box, and then `tmin` is the
   * first such parameter.
   */
  lemma SymmetricSlabExact(origin: seq<real>, direction: seq<real>, vmin: seq<real>, vmax: seq<real>)
    requires WellFormed(origin, direction, vmin, vmax) && Ordered(vmin, vmax)
    ensures SymmetricSlab(origin, direction, vmin, vmax).flag <==> exists t :: InBox(origin, direction, vmin, vmax, t)
    ensures SymmetricSlab(origin, direction, vmin, vmax).flag ==>
      InBox(origin, direction, vmin, vmax, SymmetricSlab(origin, direction, vmin, vmax).tmin) &&
      forall t :: InBox(origin, direction, vmin, vmax, t) ==> SymmetricSlab(origin, direction, vmin, vmax).tmin <= t
  {
    var r := SymmetricSlab(origin, direction, vmin, vmax);
    if r.flag {
      var t := FullEntry(origin, direction, vmin, vmax);
      forall i: nat | i < 3
        ensures InSlab(origin, direction, vmin, vmax, i, t)
      {
        EntryBeforeExit(origin, direction, vmin, vmax, i);
        SlabMembership(origin, direction, vmin, vmax, i, t);
      }
      assert InBox(origin, direction, vmin, vmax, t);
      forall t' | InBox(origin, direction, vmin, vmax, t')
        ensures t <= t'
      {
        InBoxCrossings(origin, direction, vmin, vmax, t');
      }
    } else {
      forall t | InBox(origin, direction, vmin, vmax, t)
        ensures false
      {
        InBoxCrossings(origin, direction, vmin, vmax, t);
      }
    }
  }

  /** The function with the sign test moved inside, so that axes 1 and 2 always narrow the interval. */
  method RayBoxIntersectionSymmetric(origin: seq<real>, direction: seq<real>, vmin: seq<real>, vmax: seq<real>)
    returns (result: Outcome)
    requires WellFormed(origin, direction, vmin, vmax)
    ensures result == SymmetricSlab(origin, direction, vmin, vmax)
  {
    ghost var e0, x0 := Entry(origin, direction, vmin, vmax, 0), Exit(origin, direction, vmin, vmax, 0);
    ghost var e1, x1 := Entry(origin, direction, vmin, vmax, 1), Exit(origin, direction, vmin, vmax, 1);
    var tmin := Entry(origin, direction, vmin, vmax, 0);
    var tmax := Exit(origin, direction, vmin, vmax, 0);

    var tymin := Entry(origin, direction, vmin, vmax, 1);
    var tymax := Exit(origin, direction, vmin, vmax, 1);
    if tmin > tymax || tymin > tmax {
      return Miss;
    }
    if tymin > tmin {
      tmin := tymin;
    }
    if tymax < tmax {
      tmax := tymax;
    }

    var tzmin := Entry(origin, direction, vmin, vmax, 2);
    var tzmax := Exit(origin, direction, vmin, vmax, 2);
    if tmin > tzmax || tzmin > tmax {
      return Miss;
    }
    if tzmin > tmin {
      tmin := tzmin;
    }
    result := Outcome(true, tmin);
  }
}
