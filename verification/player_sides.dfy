/** `PlayerSidesModule`: each side of the table glows in the colour of the
    player seated there. A side's colour is an animation; only its current
    value and the value it runs to are modelled, not the easing between them. */
module PlayerSides {
  import opened Common
  import opened Table

  /** A side's colour animation: the colour it shows now and the one it runs to. */
  datatype SideAnim = SideAnim(value: LedColor, target: LedColor)

  /** `sideColors[sideId]?.value ?: LedColor.Transparent` */
  function ShownColor(a: Option<SideAnim>): LedColor
  {
    if a.Some? then a.value.value else Transparent
  }

  /** `player?.color ?: LedColor.Transparent` */
  function TargetColor(p: Option<Player>): LedColor
  {
    if p.Some? then p.value.color else Transparent
  }

  /** The LEDs of `frame` from `lo` up to `hi` set to `color`. */
  function Paint(frame: seq<LedColor>, lo: int, hi: int, color: LedColor): (r: seq<LedColor>)
    ensures |r| == |frame|
  {
    seq(|frame|, i requires 0 <= i < |frame| => if lo <= i < hi then color else frame[i])
  }

  /** The frame after sides `0 .. k-1` have been painted, in increasing side
      order, over an all-transparent strip. */
  function PaintSides(c: BaseConfig, colors: seq<LedColor>, k: nat): (r: seq<LedColor>)
    requires k <= |colors|
    ensures |r| == if c.ledCount > 0 then c.ledCount else 0
  {
    if k == 0 then seq(if c.ledCount > 0 then c.ledCount else 0, _ => Transparent)
    else Paint(PaintSides(c, colors, k - 1), StartIndex(c, k - 1), EndIndex(c, k - 1), colors[k - 1])
  }

  /** The colour each side shows. */
  function ShownColors(anims: seq<Option<SideAnim>>): (r: seq<LedColor>)
    ensures |r| == |anims|
  {
    seq(|anims|, i requires 0 <= i < |anims| => ShownColor(anims[i]))
  }

  /** The frame `onUpdate` draws from the sides' shown colours. */
  function Frame(c: BaseConfig, anims: seq<Option<SideAnim>>): (r: seq<LedColor>)
    requires SideCount(c) <= |anims|
    ensures |r| == if c.ledCount > 0 then c.ledCount else 0
  {
    PaintSides(c, ShownColors(anims), SideCount(c))
  }

  /** The highest side below `k` whose LEDs include `led`, or -1. */
  function LastSideAt(c: BaseConfig, led: int, k: nat): (s: int)
    ensures -1 <= s < k
    ensures s == -1 <==> forall t :: 0 <= t < k ==> !(StartIndex(c, t) <= led < EndIndex(c, t))
    ensures s >= 0 ==> StartIndex(c, s) <= led < EndIndex(c, s) &&
                       forall t :: s < t < k ==> !(StartIndex(c, t) <= led < EndIndex(c, t))
  {
    if k == 0 then -1
    else if StartIndex(c, k - 1) <= led < EndIndex(c, k - 1) then k - 1
    else LastSideAt(c, led, k - 1)
  }

  /** Every LED of the painted frame shows the colour of the last side painted
      over it, or is transparent when no side covers it. */
  lemma {:induction false} PaintSidesAt(c: BaseConfig, colors: seq<LedColor>, k: nat, led: int)
    requires k <= |colors|
    requires 0 <= led < c.ledCount
    ensures PaintSides(c, colors, k)[led] ==
            if LastSideAt(c, led, k) == -1 then Transparent else colors[LastSideAt(c, led, k)]
  {
    if k > 0 {
      PaintSidesAt(c, colors, k - 1, led);
    }
  }

  /** With sorted breakpoints in range, each LED shows its own side's colour:
      the sides cover the strip without overlap, so every LED is painted once. */
  lemma FrameSorted(c: BaseConfig, anims: seq<Option<SideAnim>>, led: int)
    requires Sorted(c) && SideCount(c) <= |anims|
    requires 0 <= led < c.ledCount
    ensures Frame(c, anims)[led] == ShownColor(anims[SideOf(c, led)])
  {
    PaintSidesAt(c, ShownColors(anims), SideCount(c), led);
    var s := SideOf(c, led);
    SideOfSpec(c, led, s);
    SideBounds(c, s, led);
    var last := LastSideAt(c, led, SideCount(c));
    if last != s && last != -1 {
      SideBounds(c, last, led);
      SideOfSpec(c, led, last);
    }
  }

  /** The side animations after the seat map changes: every initialised side
      runs to its seated player's colour, or to transparent when the seat is
      empty; the shown colours are untouched. */
  function Retarget(anims: seq<Option<SideAnim>>, playerMap: seq<Option<Player>>): (r: seq<Option<SideAnim>>)
    requires |playerMap| <= |anims|
    ensures |r| == |anims|
  {
    seq(|anims|, i requires 0 <= i < |anims| =>
      if i < |playerMap| && anims[i].Some? then Some(SideAnim(anims[i].value.value, TargetColor(playerMap[i])))
      else anims[i])
  }

  /** Retargeting keeps which sides are initialised and what they show, and
      sets each seated side's target to its player's colour. */
  lemma RetargetSpec(anims: seq<Option<SideAnim>>, playerMap: seq<Option<Player>>, i: int)
    requires |playerMap| <= |anims| && 0 <= i < |anims|
    ensures Retarget(anims, playerMap)[i].Some? <==> anims[i].Some?
    ensures ShownColor(Retarget(anims, playerMap)[i]) == ShownColor(anims[i])
    ensures anims[i].Some? && i < |playerMap| ==>
            Retarget(anims, playerMap)[i].value.target == (if playerMap[i].Some? then playerMap[i].value.color else Transparent)
    ensures i >= |playerMap| ==> Retarget(anims, playerMap)[i] == anims[i]
  {
  }

  /** Every animation finished: each side shows the colour it ran to. */
  function Settled(anims: seq<Option<SideAnim>>): (r: seq<Option<SideAnim>>)
    ensures |r| == |anims|
  {
    seq(|anims|, i requires 0 <= i < |anims| =>
      if anims[i].Some? then Some(SideAnim(anims[i].value.target, anims[i].value.target)) else None)
  }

  /** Once the animations started by a seat-map change have finished, on a
      table with sorted breakpoints every LED shows the colour of the player
      seated at its side, or is transparent when that seat is empty. */
  lemma SeatedColorShown(c: BaseConfig, anims: seq<Option<SideAnim>>, playerMap: seq<Option<Player>>, led: int)
    requires Sorted(c) && SideCount(c) <= |playerMap| <= |anims|
    requires forall i :: 0 <= i < |anims| ==> anims[i].Some?
    requires 0 <= led < c.ledCount
    ensures Frame(c, Settled(Retarget(anims, playerMap)))[led] == TargetColor(playerMap[SideOf(c, led)])
  {
    FrameSorted(c, Settled(Retarget(anims, playerMap)), led);
  }

  class PlayerSidesModule {
    const config: BaseConfig
    /** `sideColors`: one slot per side, empty until initialised. */
    const sideColors: array<Option<SideAnim>>

    ghost predicate Valid()
      reads this
    {
      sideColors.Length == SideCount(config)
    }

    /** The array is allocated with one empty slot per side. */
    constructor (config: BaseConfig)
      ensures this.config == config && Valid() && fresh(sideColors)
      ensures forall i :: 0 <= i < sideColors.Length ==> sideColors[i].None?
    {
      this.config := config;
      sideColors := new Option<SideAnim>[SideCount(config)](_ => None);
    }

    /** The start of `init`: when the first slot is empty, every slot gets a
        transparent animation. */
    method InitSideColors()
      requires Valid()
      modifies sideColors
      ensures old(sideColors[0]).None? ==>
              forall i :: 0 <= i < sideColors.Length ==> sideColors[i] == Some(SideAnim(Transparent, Transparent))
      ensures old(sideColors[0]).Some? ==> sideColors[..] == old(sideColors[..])
    {
      if sideColors[0].None? {
        var i := 0;
        while i < sideColors.Length
          invariant 0 <= i <= sideColors.Length
          invariant forall k :: 0 <= k < i ==> sideColors[k] == Some(SideAnim(Transparent, Transparent))
        {
          sideColors[i] := Some(SideAnim(Transparent, Transparent));
          i := i + 1;
        }
      }
    }

    /** The `playerMap` collector: each initialised side's animation is
        started towards its seated player's colour. */
    method OnPlayerMap(playerMap: seq<Option<Player>>)
      requires Valid() && |playerMap| <= sideColors.Length
      modifies sideColors
      ensures sideColors[..] == Retarget(old(sideColors[..]), playerMap)
    {
      var sideId := 0;
      while sideId < |playerMap|
        invariant 0 <= sideId <= |playerMap|
        invariant forall k :: 0 <= k < sideColors.Length ==>
                    sideColors[k] == if k < sideId then Retarget(old(sideColors[..]), playerMap)[k] else old(sideColors[k])
      {
        var a := sideColors[sideId];
        if a.Some? {
          sideColors[sideId] := Some(SideAnim(a.value.value, TargetColor(playerMap[sideId])));
        }
        sideId := sideId + 1;
      }
    }

    /** `onUpdate`: a transparent frame of `ledCount` LEDs, then every side's
        LEDs, side by side in increasing order, set to the side's colour. An
        LED index outside the frame would fail, so the breakpoints must lie
        within the strip. */
    method OnUpdate() returns (colors: array<LedColor>)
      requires Valid() && InRange(config)
      ensures fresh(colors)
      ensures colors[..] == Frame(config, sideColors[..])
    {
      colors := new LedColor[config.ledCount](_ => Transparent);
      var shown := ShownColors(sideColors[..]);
      assert colors[..] == PaintSides(config, shown, 0);
      var sideId := 0;
      while sideId < SideCount(config)
        invariant 0 <= sideId <= SideCount(config)
        invariant colors[..] == PaintSides(config, shown, sideId)
      {
        var sideColor := ShownColor(sideColors[sideId]);
        var leds := GetLEDsForSide(config, sideId);
        var j := 0;
        while j < |leds|
          invariant 0 <= j <= |leds|
          invariant colors[..] == Paint(PaintSides(config, shown, sideId), StartIndex(config, sideId),
                                        StartIndex(config, sideId) + j, sideColor)
        {
          colors[leds[j]] := sideColor;
          j := j + 1;
        }
        assert colors[..] == PaintSides(config, shown, sideId + 1);
        sideId := sideId + 1;
      }
    }
  }
}
