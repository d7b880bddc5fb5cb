/** `StatusViewModel`: the status screen's copy of the LED strip, split into
    one list of interface colours per side of the table. */
module Status {
  import opened Common
  import opened Table

  /** `colors[ledId]` is read for every LED of every side: the frame must hold
      each of those indices. */
  predicate SidesWithin(c: BaseConfig, n: int)
  {
    forall s :: 0 <= s < SideCount(c) ==>
      StartIndex(c, s) >= EndIndex(c, s) || (0 <= StartIndex(c, s) && EndIndex(c, s) <= n)
  }

  /** `leds.map { colors[it].toColor() }` */
  function ColorsAt(colors: seq<LedColor>, leds: seq<int>): (r: seq<UiColor>)
    requires forall j :: 0 <= j < |leds| ==> 0 <= leds[j] < |colors|
    ensures |r| == |leds|
  {
    seq(|leds|, j requires 0 <= j < |leds| => ToColor(colors[leds[j]]))
  }

  lemma ColorsAtAppend(colors: seq<LedColor>, a: seq<int>, b: seq<int>)
    requires forall j :: 0 <= j < |a| ==> 0 <= a[j] < |colors|
    requires forall j :: 0 <= j < |b| ==> 0 <= b[j] < |colors|
    ensures ColorsAt(colors, a + b) == ColorsAt(colors, a) + ColorsAt(colors, b)
  {
  }

  lemma SideLedsWithin(c: BaseConfig, n: int, s: int)
    requires SidesWithin(c, n) && 0 <= s < SideCount(c)
    ensures forall j :: 0 <= j < |GetLEDsForSide(c, s)| ==> 0 <= GetLEDsForSide(c, s)[j] < n
  {
  }

  /** One side's list: its LEDs' colours, in LED order. */
  function SideList(c: BaseConfig, colors: seq<LedColor>, s: int): seq<UiColor>
    requires SidesWithin(c, |colors|) && 0 <= s < SideCount(c)
  {
    SideLedsWithin(c, |colors|, s);
    ColorsAt(colors, GetLEDsForSide(c, s))
  }

  /** What `splitSides` returns: one entry per side id. */
  function SplitMap(c: BaseConfig, colors: seq<LedColor>): (r: map<int, seq<UiColor>>)
    requires SidesWithin(c, |colors|)
    ensures forall s :: s in r <==> 0 <= s < SideCount(c)
    ensures forall s :: s in r ==> |r[s]| == |GetLEDsForSide(c, s)|
  {
    map s | 0 <= s < SideCount(c) :: SideList(c, colors, s)
  }

  /** The keys are exactly the side ids of `getSides()`, and side `s`'s list
      has one colour per LED of the side, the colour of that LED. */
  lemma SplitMapSpec(c: BaseConfig, colors: seq<LedColor>)
    requires SidesWithin(c, |colors|)
    ensures SplitMap(c, colors).Keys == set s | s in GetSides(c)
    ensures forall s :: 0 <= s < SideCount(c) ==>
              |SplitMap(c, colors)[s]| == |GetLEDsForSide(c, s)| &&
              forall j :: 0 <= j < |GetLEDsForSide(c, s)| ==>
                SplitMap(c, colors)[s][j] == ToColor(colors[GetLEDsForSide(c, s)[j]])
  {
    forall s | s in SplitMap(c, colors).Keys ensures s in GetSides(c) {
      assert GetSides(c)[s] == s;
    }
  }

  /** The lists of sides `0 .. k-1`, concatenated in side order. */
  function ListsConcat(m: map<int, seq<UiColor>>, k: nat): seq<UiColor>
    requires forall s :: 0 <= s < k ==> s in m
  {
    if k == 0 then [] else ListsConcat(m, k - 1) + m[k - 1]
  }

  lemma {:induction false} SidesConcatWithin(c: BaseConfig, n: int, k: nat)
    requires SidesWithin(c, n) && k <= SideCount(c)
    ensures forall j :: 0 <= j < |SidesConcat(c, k)| ==> 0 <= SidesConcat(c, k)[j] < n
  {
    if k > 0 {
      SidesConcatWithin(c, n, k - 1);
      SideLedsWithin(c, n, k - 1);
      var a, b := SidesConcat(c, k - 1), GetLEDsForSide(c, k - 1);
      assert SidesConcat(c, k) == a + b;
      forall j | 0 <= j < |a + b| ensures 0 <= (a + b)[j] < n {
        if j < |a| {
          assert (a + b)[j] == a[j];
        } else {
          assert (a + b)[j] == b[j - |a|];
        }
      }
    }
  }

  lemma {:induction false} ListsConcatLeds(c: BaseConfig, colors: seq<LedColor>, k: nat)
    requires SidesWithin(c, |colors|) && k <= SideCount(c)
    ensures forall j :: 0 <= j < |SidesConcat(c, k)| ==> 0 <= SidesConcat(c, k)[j] < |colors|
    ensures ListsConcat(SplitMap(c, colors), k) == ColorsAt(colors, SidesConcat(c, k))
  {
    SidesConcatWithin(c, |colors|, k);
    if k > 0 {
      var m := SplitMap(c, colors);
      ListsConcatLeds(c, colors, k - 1);
      SideLedsWithin(c, |colors|, k - 1);
      var a, b := SidesConcat(c, k - 1), GetLEDsForSide(c, k - 1);
      ColorsAtAppend(colors, a, b);
      assert SidesConcat(c, k) == a + b;
      assert m[k - 1] == ColorsAt(colors, b);
      assert ListsConcat(m, k) == ListsConcat(m, k - 1) + m[k - 1];
    }
  }

  /** With sorted breakpoints in range and a frame of at least `ledCount`
      colours, the side lists concatenated in side order are the whole strip's
      colours, LED by LED. */
  lemma SplitCoversStrip(c: BaseConfig, colors: seq<LedColor>)
    requires Sorted(c) && c.ledCount <= |colors|
    ensures SidesWithin(c, |colors|)
    ensures ListsConcat(SplitMap(c, colors), SideCount(c)) ==
            seq(c.ledCount, i requires 0 <= i < c.ledCount => ToColor(colors[i]))
  {
    forall s | 0 <= s < SideCount(c)
      ensures StartIndex(c, s) >= EndIndex(c, s) || (0 <= StartIndex(c, s) && EndIndex(c, s) <= |colors|)
    {
    }
    ListsConcatLeds(c, colors, SideCount(c));
    SidesPartitionStrip(c);
  }

  class StatusViewModel {
    const config: BaseConfig
    /** `uiState.colorMap` */
    var colorMap: map<int, seq<UiColor>>

    /** The screen starts with no lists. */
    constructor (config: BaseConfig)
      ensures this.config == config && colorMap == map[]
    {
      this.config := config;
      colorMap := map[];
    }

    /** `splitSides` */
    method SplitSides(colors: seq<LedColor>) returns (resultMap: map<int, seq<UiColor>>)
      requires SidesWithin(config, |colors|)
      ensures resultMap == SplitMap(config, colors)
    {
      resultMap := map[];
      var side := 0;
      while side < SideCount(config)
        invariant 0 <= side <= SideCount(config)
        invariant resultMap == map s | 0 <= s < side :: SideList(config, colors, s)
      {
        resultMap := resultMap[side := SideList(config, colors, side)];
        side := side + 1;
      }
    }

    /** Each new LED frame replaces the screen's lists. */
    method OnLedState(colors: seq<LedColor>)
      requires SidesWithin(config, |colors|)
      modifies this
      ensures colorMap == SplitMap(config, colors)
    {
      colorMap := SplitSides(colors);
    }
  }
}
