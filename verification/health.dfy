/** `HealthModule`: each player's health and maximum health, the states the
    health screen shows, and the low-health pulse. The LED rendering and the
    animations themselves are not modelled: an animation is kept only as the
    value it runs to. */
module Health {
  import opened Common

  /** A stored `(health, maxHealth)` pair. */
  datatype HealthPair = HealthPair(health: int, maxHealth: int)

  /** What the health screen shows for one player. */
  datatype HealthState = HealthState(playerId: int, playerName: string, playerColor: UiColor,
                                     health: int, maxHealth: int, percentage: real)

  /** 0 ≤ health ≤ maxHealth */
  predicate InBounds(p: HealthPair)
  {
    0 <= p.health <= p.maxHealth
  }

  /** Every stored pair is within bounds. */
  predicate AllInBounds(healthMap: map<int, HealthPair>)
  {
    forall id :: id in healthMap ==> InBounds(healthMap[id])
  }

  /** A player without an entry counts as health 0 of 0. */
  function Stored(healthMap: map<int, HealthPair>, playerId: int): HealthPair
  {
    if playerId in healthMap then healthMap[playerId] else HealthPair(0, 0)
  }

  /** The fraction of health left; a maximum of 0 counts as full. */
  function Percentage(health: int, maxHealth: int): (r: real)
    ensures maxHealth == 0 || health == maxHealth ==> r == 1.0
    ensures maxHealth > 0 && health >= 0 ==> r >= 0.0
  {
    if maxHealth == 0 then 1.0
    else
      var m := maxHealth as real;
      assert m / m == 1.0;
      health as real / m
  }

  /** The pair `setHealth` stores: the maximum is the given one, or the old one,
      raised to at least 0; the health is the given one, or the old one, clamped
      into `[0, maximum]`. */
  function NewPair(prev: HealthPair, health: Option<int>, maxHealth: Option<int>): (r: HealthPair)
    ensures InBounds(r)
    ensures InBounds(prev) && health.None? && maxHealth.None? ==> r == prev
  {
    var m := if maxHealth.Some? then maxHealth.value else prev.maxHealth;
    var newMax := if m < 0 then 0 else m;
    var h := if health.Some? then health.value else prev.health;
    var newHealth := if h < 0 then 0 else if h > newMax then newMax else h;
    HealthPair(newHealth, newMax)
  }

  /** The low-health pulse runs while less than a tenth of the health is left. */
  predicate IsLow(p: HealthPair)
    ensures IsLow(p) ==> p.maxHealth != 0 && p.health != p.maxHealth
  {
    Percentage(p.health, p.maxHealth) < 0.1
  }

  /** The stored pair is always within bounds; a maximum that is not negative
      and a health within it are stored as given; an omitted argument keeps an
      old value that was within bounds. */
  lemma NewPairSpec(prev: HealthPair, health: Option<int>, maxHealth: Option<int>)
    ensures InBounds(NewPair(prev, health, maxHealth))
    ensures maxHealth.Some? && maxHealth.value >= 0 ==> NewPair(prev, health, maxHealth).maxHealth == maxHealth.value
    ensures maxHealth.Some? && maxHealth.value < 0 ==> NewPair(prev, health, maxHealth).maxHealth == 0
    ensures health.Some? && 0 <= health.value <= NewPair(prev, health, maxHealth).maxHealth ==>
            NewPair(prev, health, maxHealth).health == health.value
    ensures InBounds(prev) && maxHealth.None? ==> NewPair(prev, health, maxHealth).maxHealth == prev.maxHealth
    ensures InBounds(prev) && health.None? && maxHealth.None? ==> NewPair(prev, health, maxHealth) == prev
  {
  }

  /** Setting the same values twice stores the same pair as setting them once. */
  lemma NewPairIdempotent(prev: HealthPair, health: Option<int>, maxHealth: Option<int>)
    ensures NewPair(NewPair(prev, health, maxHealth), health, maxHealth) == NewPair(prev, health, maxHealth)
  {
  }

  /** The sign of a product with a positive factor is the sign of the other factor. */
  lemma ProductSign(x: real, y: real)
    requires y > 0.0
    ensures x > 0.0 ==> x * y > 0.0
    ensures x < 0.0 ==> x * y < 0.0
  {
  }

  /** Dividing by a positive number keeps the order against a bound:
      `h / m < c` exactly when `h < c * m`, and likewise for `<=`. */
  lemma QuotientBound(h: real, m: real, c: real)
    requires m > 0.0
    ensures h / m < c <==> h < c * m
    ensures h / m <= c <==> h <= c * m
  {
    var q := h / m;
    assert q * m == h;
    assert (q - c) * m == h - c * m;
    ProductSign(q - c, m);
    if q == c {
      assert h == c * m;
    }
  }

  /** Within bounds the fraction lies in `[0, 1]`, and the pulse runs exactly
      when ten times the health is below the maximum. */
  lemma PercentageSpec(p: HealthPair)
    requires InBounds(p)
    ensures 0.0 <= Percentage(p.health, p.maxHealth) <= 1.0
    ensures IsLow(p) <==> 10 * p.health < p.maxHealth
  {
    if p.maxHealth > 0 {
      var h, m := p.health as real, p.maxHealth as real;
      QuotientBound(h, m, 1.0);
      QuotientBound(h, m, 0.1);
      QuotientBound(-h, m, 0.0);
      assert -h / m == -(h / m);
    }
  }

  /** `healthStates`: one state per active player, in active-player order. */
  function HealthStates(players: seq<Player>, healthMap: map<int, HealthPair>): (r: seq<HealthState>)
    ensures |r| == |players|
  {
    if players == [] then []
    else
      var p := players[0];
      var s := Stored(healthMap, p.id);
      [HealthState(p.id, p.name, ToColor(p.color), s.health, s.maxHealth, Percentage(s.health, s.maxHealth))]
        + HealthStates(players[1..], healthMap)
  }

  /** The `i`-th state is the `i`-th active player's, with its colour, its
      stored pair and that pair's fraction, or 0 of 0 and a full fraction
      without one; with every pair within bounds the
      fraction lies in `[0, 1]`. */
  lemma {:induction false} HealthStatesSpec(players: seq<Player>, healthMap: map<int, HealthPair>, i: int)
    requires 0 <= i < |players|
    ensures var st := HealthStates(players, healthMap)[i];
            st.playerId == players[i].id && st.playerName == players[i].name &&
            st.health == Stored(healthMap, players[i].id).health &&
            st.maxHealth == Stored(healthMap, players[i].id).maxHealth &&
            st.percentage == Percentage(st.health, st.maxHealth) &&
            st.playerColor == ToColor(players[i].color) &&
            (players[i].id !in healthMap ==> st.health == 0 && st.maxHealth == 0 && st.percentage == 1.0)
    ensures AllInBounds(healthMap) ==> 0.0 <= HealthStates(players, healthMap)[i].percentage <= 1.0
  {
    if i > 0 {
      HealthStatesSpec(players[1..], healthMap, i - 1);
    } else if AllInBounds(healthMap) {
      PercentageSpec(Stored(healthMap, players[0].id));
    }
  }

  class HealthModule {
    /** `_healthMap` */
    var healthMap: map<int, HealthPair>
    /** The value each player's health animation runs to (`animatedHealth`). */
    var healthTarget: map<int, real>
    /** The players whose low-health pulse runs (the keys of `animatedAlpha`). */
    var pulsing: set<int>

    ghost predicate Valid()
      reads this
    {
      AllInBounds(healthMap)
    }

    constructor ()
      ensures Valid() && healthMap == map[] && healthTarget == map[] && pulsing == {}
    {
      healthMap := map[];
      healthTarget := map[];
      pulsing := {};
    }

    /** `setHealth`: only `playerId`'s entry changes. */
    method SetHealth(playerId: int, health: Option<int>, maxHealth: Option<int>)
      requires Valid()
      modifies this
      ensures Valid()
      ensures healthMap == old(healthMap)[playerId := NewPair(Stored(old(healthMap), playerId), health, maxHealth)]
      ensures var p := healthMap[playerId];
              healthTarget == old(healthTarget)[playerId := Percentage(p.health, p.maxHealth)] &&
              pulsing == if IsLow(p) then old(pulsing) + {playerId} else old(pulsing) - {playerId}
    {
      var oldPair := if playerId in healthMap then healthMap[playerId] else HealthPair(0, 0);
      var m := if maxHealth.Some? then maxHealth.value else oldPair.maxHealth;
      var newMax := if m < 0 then 0 else m;
      var h := if health.Some? then health.value else oldPair.health;
      var newHealth := if h < 0 then 0 else if h > newMax then newMax else h;
      var percentage := if newMax == 0 then 1.0 else newHealth as real / newMax as real;
      healthTarget := healthTarget[playerId := percentage];
      if percentage < 0.1 {
        pulsing := pulsing + {playerId};
      } else {
        pulsing := pulsing - {playerId};
      }
      healthMap := healthMap[playerId := HealthPair(newHealth, newMax)];
    }

    /** `healthStates`, for the given active players. */
    function States(players: seq<Player>): seq<HealthState>
      reads this
    {
      HealthStates(players, healthMap)
    }
  }
}
