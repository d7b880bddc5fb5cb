/** The table geometry of `BaseConfig`: a strip of `ledCount` LEDs cut into
    `|breakPoints| + 1` sides by a list of breakpoint indices. The loaded
    configuration is a value here; reading it from the YAML file is not modelled. */
module Table {

  datatype BaseConfig = BaseConfig(ledCount: int, breakPoints: seq<int>)

  /** `(lo until hi).toList()`: the integers from `lo` up to but excluding `hi`. */
  function Range(lo: int, hi: int): (r: seq<int>)
    ensures |r| == if lo < hi then hi - lo else 0
    ensures forall i :: 0 <= i < |r| ==> r[i] == lo + i
    decreases hi - lo
  {
    if lo >= hi then [] else [lo] + Range(lo + 1, hi)
  }

  lemma RangeAppend(lo: int, mid: int, hi: int)
    requires lo <= mid <= hi
    ensures Range(lo, mid) + Range(mid, hi) == Range(lo, hi)
  {
    var a, b := Range(lo, mid) + Range(mid, hi), Range(lo, hi);
    assert |a| == |b|;
    forall i | 0 <= i < |a| ensures a[i] == b[i] {
      if i >= mid - lo { assert a[i] == Range(mid, hi)[i - (mid - lo)]; }
    }
  }

  function SideCount(c: BaseConfig): nat
  {
    |c.breakPoints| + 1
  }

  /** `getLEDs()` */
  function GetLEDs(c: BaseConfig): (r: seq<int>)
    ensures |r| == if c.ledCount > 0 then c.ledCount else 0
    ensures forall i :: 0 <= i < |r| ==> r[i] == i
  {
    Range(0, c.ledCount)
  }

  /** `getSides()`: `(0..breakPoints.size).toList()`. */
  function GetSides(c: BaseConfig): (r: seq<int>)
    ensures |r| == SideCount(c)
    ensures forall i :: 0 <= i < |r| ==> r[i] == i
  {
    Range(0, |c.breakPoints| + 1)
  }

  /** `breakPoints.getOrNull(side - 1) ?: 0` */
  function StartIndex(c: BaseConfig, side: int): int
  {
    if 0 <= side - 1 < |c.breakPoints| then c.breakPoints[side - 1] else 0
  }

  /** `breakPoints.getOrNull(side) ?: ledCount` */
  function EndIndex(c: BaseConfig, side: int): int
  {
    if 0 <= side < |c.breakPoints| then c.breakPoints[side] else c.ledCount
  }

  /** `getLEDsForSide(side)` */
  function GetLEDsForSide(c: BaseConfig, side: int): (r: seq<int>)
    ensures forall i :: 0 <= i < |r| ==> StartIndex(c, side) <= r[i] < EndIndex(c, side)
    ensures InRange(c) ==> forall i :: 0 <= i < |r| ==> 0 <= r[i] < c.ledCount
  {
    Range(StartIndex(c, side), EndIndex(c, side))
  }

  /** Every breakpoint is an LED boundary of the strip. */
  predicate InRange(c: BaseConfig)
  {
    0 <= c.ledCount && forall i :: 0 <= i < |c.breakPoints| ==> 0 <= c.breakPoints[i] <= c.ledCount
  }

  /** The breakpoints also never decrease: the configurations the table is set up with. */
  predicate Sorted(c: BaseConfig)
  {
    InRange(c) && forall i, j :: 0 <= i < j < |c.breakPoints| ==> c.breakPoints[i] <= c.breakPoints[j]
  }

  /** The LED lists of sides `0 .. k-1`, concatenated in side order. */
  function SidesConcat(c: BaseConfig, k: nat): seq<int>
  {
    if k == 0 then [] else SidesConcat(c, k - 1) + GetLEDsForSide(c, k - 1)
  }

  /** A side whose start breakpoint is not below its end breakpoint is empty. */
  lemma EmptySide(c: BaseConfig, side: int)
    requires 1 <= side < |c.breakPoints|
    requires c.breakPoints[side - 1] >= c.breakPoints[side]
    ensures GetLEDsForSide(c, side) == []
  {
  }

  /** A side id outside `getSides()` gets both defaults: the whole strip. */
  lemma SideOutsideRange(c: BaseConfig, side: int)
    requires side < 0 || side > |c.breakPoints|
    ensures GetLEDsForSide(c, side) == GetLEDs(c)
  {
  }

  /** Each side is the half-open range between its two breakpoints. */
  lemma SideBounds(c: BaseConfig, side: int, led: int)
    requires 0 <= side < SideCount(c)
    ensures led in GetLEDsForSide(c, side) <==> StartIndex(c, side) <= led < EndIndex(c, side)
  {
    var r := GetLEDsForSide(c, side);
    if StartIndex(c, side) <= led < EndIndex(c, side) {
      assert r[led - StartIndex(c, side)] == led;
    }
  }

  /** With sorted breakpoints, the sides come in order: every LED of a side lies
      below every LED of a later side, so two sides never share an LED. */
  lemma SidesOrdered(c: BaseConfig, s1: int, s2: int, a: int, b: int)
    requires Sorted(c)
    requires 0 <= s1 < s2 < SideCount(c)
    requires a in GetLEDsForSide(c, s1) && b in GetLEDsForSide(c, s2)
    ensures a < b
  {
    SideBounds(c, s1, a);
    SideBounds(c, s2, b);
    assert EndIndex(c, s1) <= StartIndex(c, s2);
  }

  lemma {:induction false} SidesConcatPrefix(c: BaseConfig, k: nat)
    requires Sorted(c)
    requires 1 <= k <= SideCount(c)
    ensures SidesConcat(c, k) == Range(0, EndIndex(c, k - 1))
  {
    if k == 1 {
      assert SidesConcat(c, 0) == [];
      assert [] + GetLEDsForSide(c, 0) == GetLEDsForSide(c, 0);
    } else {
      SidesConcatPrefix(c, k - 1);
      var mid, hi := EndIndex(c, k - 2), EndIndex(c, k - 1);
      assert mid == c.breakPoints[k - 2] && StartIndex(c, k - 1) == mid;
      assert 0 <= mid <= hi;
      assert SidesConcat(c, k) == Range(0, mid) + Range(mid, hi);
      RangeAppend(0, mid, hi);
    }
  }

  /** With sorted breakpoints in range, the sides partition the strip: their LED
      lists, concatenated in side order, are exactly `getLEDs()`, so there are no
      gaps and no overlaps. */
  lemma SidesPartitionStrip(c: BaseConfig)
    requires Sorted(c)
    ensures SidesConcat(c, SideCount(c)) == GetLEDs(c)
  {
    SidesConcatPrefix(c, SideCount(c));
  }

  /** The side an LED belongs to: the number of breakpoints at or below it. */
  function SideOf(c: BaseConfig, led: int): (s: nat)
    ensures s <= |c.breakPoints|
  {
    CountAtOrBelow(c.breakPoints, led)
  }

  function CountAtOrBelow(bp: seq<int>, led: int): (n: nat)
    ensures n <= |bp|
  {
    if bp == [] then 0
    else CountAtOrBelow(bp[..|bp| - 1], led) + (if bp[|bp| - 1] <= led then 1 else 0)
  }

  lemma {:induction false} CountAtOrBelowSorted(bp: seq<int>, led: int, k: nat)
    requires forall i, j :: 0 <= i < j < |bp| ==> bp[i] <= bp[j]
    requires k <= |bp|
    ensures (forall i :: 0 <= i < k ==> bp[i] <= led) && (forall i :: k <= i < |bp| ==> bp[i] > led)
            ==> CountAtOrBelow(bp, led) == k
  {
    if bp != [] && (forall i :: 0 <= i < k ==> bp[i] <= led) && (forall i :: k <= i < |bp| ==> bp[i] > led) {
      var init := bp[..|bp| - 1];
      if k == |bp| {
        CountAtOrBelowSorted(init, led, k - 1);
      } else {
        CountAtOrBelowSorted(init, led, k);
      }
    }
  }

  /** With sorted breakpoints, an LED of the strip lies in exactly one side,
      `SideOf`. */
  lemma SideOfSpec(c: BaseConfig, led: int, side: int)
    requires Sorted(c)
    requires 0 <= led < c.ledCount && 0 <= side < SideCount(c)
    ensures led in GetLEDsForSide(c, side) <==> side == SideOf(c, led)
  {
    SideBounds(c, side, led);
    var bp := c.breakPoints;
    if led in GetLEDsForSide(c, side) {
      CountAtOrBelowSorted(bp, led, side);
    } else {
      // the side holding `led` is the one after the last breakpoint at or below it
      var k: nat := 0;
      while k < |bp| && bp[k] <= led
        invariant k <= |bp|
        invariant forall i :: 0 <= i < k ==> bp[i] <= led
      {
        k := k + 1;
      }
      CountAtOrBelowSorted(bp, led, k);
      assert StartIndex(c, k) <= led < EndIndex(c, k);
      if side < k {
        assert EndIndex(c, side) <= led;
      } else {
        assert side > k;
        assert StartIndex(c, side) > led;
      }
    }
  }
}
