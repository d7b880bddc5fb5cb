/** `TurnModule`: the order in which the active players take turns, the
    active player, stepping to the next or previous player, the pseudo-random
    pick and the LED filter that marks the active player's chunks.

    The active players and their LED chunks live in the player repository; they
    are passed in as `players` (unique ids, in the repository's order) and
    `chunks` (the LED-index chunks of each player). */
module Turns {
  import opened Common
  import opened Seqs
  import Table

  datatype RandomAnimationType = FlashSides | DoubleIndicator

  /** Some active player has this id. */
  predicate IsActiveId(players: seq<Player>, id: int)
  {
    exists i :: 0 <= i < |players| && players[i].id == id
  }

  /** The test the second reconciliation pass keeps an id by. */
  function ActiveTest(players: seq<Player>): int -> bool
  {
    (id: int) => IsActiveId(players, id)
  }

  function PlayerId(p: Player): int
  {
    p.id
  }

  // ---------------------------------------------------------------- order

  /** The first reconciliation pass: each active player's id that the order
      does not yet contain is appended, in active-player order. */
  function AppendMissing(order: seq<int>, players: seq<Player>): (r: seq<int>)
    ensures order <= r && |r| <= |order| + |players|
  {
    if players == [] then order
    else
      var o := AppendMissing(order, players[..|players| - 1]);
      var id := players[|players| - 1].id;
      if id in o then o else o + [id]
  }

  lemma AppendMissingStep(order: seq<int>, players: seq<Player>, i: int)
    requires 0 <= i < |players|
    ensures var o := AppendMissing(order, players[..i]);
            AppendMissing(order, players[..i + 1]) == if players[i].id in o then o else o + [players[i].id]
  {
    assert players[..i + 1][..i] == players[..i];
  }

  lemma FilterStep(order: seq<int>, j: int, players: seq<Player>)
    requires 0 <= j < |order|
    ensures Filter(order[..j + 1], ActiveTest(players)) ==
            Filter(order[..j], ActiveTest(players)) + (if IsActiveId(players, order[j]) then [order[j]] else [])
  {
    FilterAppend(order[..j], [order[j]], ActiveTest(players));
    assert order[..j + 1] == order[..j] + [order[j]];
  }

  /** Both passes: append the missing ids, then remove every id no active
      player has. */
  function ReconciledOrder(order: seq<int>, players: seq<Player>): (r: seq<int>)
    ensures |r| <= |order| + |players|
    ensures forall i :: 0 <= i < |r| ==> IsActiveId(players, r[i])
  {
    Filter(AppendMissing(order, players), ActiveTest(players))
  }

  lemma {:induction false} AppendMissingSpec(order: seq<int>, players: seq<Player>)
    ensures order <= AppendMissing(order, players)
    ensures forall x :: x in AppendMissing(order, players) <==> x in order || IsActiveId(players, x)
    ensures forall k :: |order| <= k < |AppendMissing(order, players)| ==>
              IsActiveId(players, AppendMissing(order, players)[k])
    ensures DupFree(order) ==> DupFree(AppendMissing(order, players))
  {
    if players != [] {
      var init := players[..|players| - 1];
      var last := players[|players| - 1];
      AppendMissingSpec(order, init);
      forall x | IsActiveId(init, x) ensures IsActiveId(players, x) {
        var i :| 0 <= i < |init| && init[i].id == x;
        assert players[i].id == x;
      }
      forall x | IsActiveId(players, x) && x != last.id ensures IsActiveId(init, x) {
        var i :| 0 <= i < |players| && players[i].id == x;
        assert init[i].id == x;
      }
      assert IsActiveId(players, last.id) by {
        assert players[|players| - 1].id == last.id;
      }
    }
  }

  /** When every active id is already in the order, the first pass appends nothing. */
  lemma {:induction false} AppendNothing(order: seq<int>, players: seq<Player>)
    requires forall i :: 0 <= i < |players| ==> players[i].id in order
    ensures AppendMissing(order, players) == order
  {
    if players != [] {
      AppendNothing(order, players[..|players| - 1]);
    }
  }

  /** Reconciliation leaves exactly the active players' ids; the ids that
      survive from the old order come first, in their old relative order; and
      an order without duplicates stays without duplicates. */
  lemma ReconcileSpec(order: seq<int>, players: seq<Player>)
    ensures forall x :: x in ReconciledOrder(order, players) <==> IsActiveId(players, x)
    ensures Filter(order, ActiveTest(players)) <= ReconciledOrder(order, players)
    ensures DupFree(order) ==> DupFree(ReconciledOrder(order, players))
  {
    var a := AppendMissing(order, players);
    var p := ActiveTest(players);
    AppendMissingSpec(order, players);
    forall x | IsActiveId(players, x) ensures x in Filter(a, p) {
      var i :| 0 <= i < |a| && a[i] == x;
      FilterKeeps(a, p, i);
    }
    assert a == order + a[|order|..];
    FilterAppend(order, a[|order|..], p);
    if DupFree(order) {
      FilterDupFree(a, p);
    }
  }

  /** An order that holds exactly the active ids is left as it is, so
      reconciling twice is the same as reconciling once. */
  lemma ReconcileFixedPoint(order: seq<int>, players: seq<Player>)
    requires forall x :: x in order <==> IsActiveId(players, x)
    ensures ReconciledOrder(order, players) == order
    ensures ReconciledOrder(ReconciledOrder(order, players), players) == ReconciledOrder(order, players)
  {
    forall i | 0 <= i < |players| ensures players[i].id in order {
      assert IsActiveId(players, players[i].id);
    }
    AppendNothing(order, players);
    FilterAll(order, ActiveTest(players));
  }

  /** A second reconciliation against the same players changes nothing. */
  lemma ReconcileIdempotent(order: seq<int>, players: seq<Player>)
    ensures ReconciledOrder(ReconciledOrder(order, players), players) == ReconciledOrder(order, players)
  {
    ReconcileSpec(order, players);
    ReconcileFixedPoint(ReconciledOrder(order, players), players);
  }

  // ---------------------------------------------------------------- player list

  /** A player's place in the order, -1 when the order lacks its id. */
  function OrderKey(order: seq<int>): Player -> int
  {
    (p: Player) => IndexOf(order, p.id)
  }

  /** `playerList`: the active players stably sorted by their place in the order. */
  function PlayerList(players: seq<Player>, order: seq<int>): (r: seq<Player>)
    ensures |r| == |players| && multiset(r) == multiset(players)
  {
    SortBy(players, OrderKey(order))
  }

  /** The list holds the active players, each as often as before, sorted by
      their place in the order; the players missing from the order come first,
      in active-player order. */
  lemma PlayerListSpec(players: seq<Player>, order: seq<int>)
    ensures multiset(PlayerList(players, order)) == multiset(players)
    ensures SortedBy(PlayerList(players, order), OrderKey(order))
    ensures WithKey(PlayerList(players, order), OrderKey(order), -1) == WithKey(players, OrderKey(order), -1)
  {
    SortBySorted(players, OrderKey(order));
    SortByStable(players, OrderKey(order), -1);
  }

  /** Once the order holds each active id exactly once, as reconciliation
      leaves it, the list follows the order exactly. */
  lemma PlayerListFollowsOrder(players: seq<Player>, order: seq<int>)
    requires UniquePlayerIds(players) && DupFree(order)
    requires forall x :: x in order <==> IsActiveId(players, x)
    ensures |PlayerList(players, order)| == |order|
    ensures forall k :: 0 <= k < |order| ==> PlayerList(players, order)[k].id == order[k]
  {
    var key := OrderKey(order);
    var l := PlayerList(players, order);
    OrderHoldsEachPlayer(players, order);
    SortBySorted(players, key);
    SortByUniqueKeys(players, key, PlayerId);
    ListedInOrder(players, order);
    var keys := seq(|l|, k requires 0 <= k < |l| => key(l[k]));
    forall a, b | 0 <= a < b < |keys| ensures keys[a] < keys[b] {
      assert PlayerId(l[a]) != PlayerId(l[b]);
    }
    StrictlyIncreasingIdentity(keys);
    forall k | 0 <= k < |order| ensures l[k].id == order[k] {
      assert keys[k] == k;
    }
  }

  /** An order holding exactly the ids of players with unique ids, each once,
      is as long as the player list. */
  lemma OrderHoldsEachPlayer(players: seq<Player>, order: seq<int>)
    requires UniquePlayerIds(players) && DupFree(order)
    requires forall x :: x in order <==> IsActiveId(players, x)
    ensures |players| == |order|
  {
    var ids := PlayerIds(players);
    forall x ensures x in ids <==> x in order {
      if x in order {
        var i :| 0 <= i < |players| && players[i].id == x;
        assert ids[i] == x;
      }
      if x in ids {
        var i :| 0 <= i < |ids| && ids[i] == x;
        assert IsActiveId(players, x);
      }
    }
    SameSetSameLength(ids, order);
  }

  /** Every listed player's id is in an order holding all active ids, at its key. */
  lemma ListedInOrder(players: seq<Player>, order: seq<int>)
    requires forall x :: IsActiveId(players, x) ==> x in order
    ensures var l := PlayerList(players, order);
            forall k :: 0 <= k < |l| ==> 0 <= OrderKey(order)(l[k]) < |order| && order[OrderKey(order)(l[k])] == l[k].id
  {
    var l := PlayerList(players, order);
    forall k | 0 <= k < |l| ensures IsActiveId(players, l[k].id) {
      assert l[k] in multiset(players);
      var i :| 0 <= i < |players| && players[i] == l[k];
    }
  }

  // ---------------------------------------------------------------- reorder

  /** `setPlayerOrder`'s guard: each list contains all elements of the other. */
  predicate AcceptsOrder(order: seq<int>, newOrder: seq<int>)
  {
    (forall x :: x in order ==> x in newOrder) && (forall x :: x in newOrder ==> x in order)
  }

  /** `setPlayerOrder`: the new order when accepted, the old one otherwise. */
  function SetOrder(order: seq<int>, newOrder: seq<int>): (r: seq<int>)
    ensures AcceptsOrder(order, newOrder) ==> r == newOrder
    ensures !AcceptsOrder(order, newOrder) ==> r == order
  {
    if AcceptsOrder(order, newOrder) then newOrder else order
  }

  /** The guard compares sets, not lists: an order with an id repeated is
      accepted, and then carries the duplicate. */
  lemma AcceptsDuplicates(order: seq<int>, x: int)
    requires x in order
    ensures AcceptsOrder(order, order + [x])
    ensures SetOrder(order, order + [x]) == order + [x] && !DupFree(order + [x])
  {
    var r := order + [x];
    var i :| 0 <= i < |order| && order[i] == x;
    assert r[i] == r[|order|];
  }

  /** `mapNotNull { it.value?.id }` over the seat map, in seat order. */
  function SeatedIds(seats: seq<Option<Player>>): (r: seq<int>)
    ensures forall x :: x in r <==> exists s :: 0 <= s < |seats| && seats[s].Some? && seats[s].value.id == x
  {
    if seats == [] then []
    else
      var rest := SeatedIds(seats[..|seats| - 1]);
      var last := seats[|seats| - 1];
      assert forall s :: 0 <= s < |seats| - 1 ==> seats[..|seats| - 1][s] == seats[s];
      if last.Some? then rest + [last.value.id] else rest
  }

  // ---------------------------------------------------------------- next player

  /** `setNextPlayerActive`: the id it makes active, or None (no change) on an
      empty list. `active` is the current active player, None when there is none. */
  function NextPlayer(list: seq<Player>, active: Option<Player>, forward: bool): (r: Option<int>)
    ensures r.None? <==> list == []
    ensures r.Some? ==> IsActiveId(list, r.value)
  {
    if list == [] then None
    else
      var idx := if active.Some? then IndexOf(list, active.value) else -1;
      if forward then
        Some(if 0 <= idx + 1 < |list| then list[idx + 1].id else list[0].id)
      else
        Some(if 0 <= idx - 1 < |list| then list[idx - 1].id else list[|list| - 1].id)
  }

  lemma UniqueIdsDupFree(list: seq<Player>)
    requires UniquePlayerIds(list)
    ensures DupFree(list)
  {
  }

  /** From the player at `i` the step goes to the next player, wrapping from
      the last to the first, or to the previous one, wrapping from the first to
      the last. */
  lemma NextPlayerSpec(list: seq<Player>, i: int)
    requires UniquePlayerIds(list) && 0 <= i < |list|
    ensures NextPlayer(list, Some(list[i]), true) == Some(list[(i + 1) % |list|].id)
    ensures NextPlayer(list, Some(list[i]), false) == Some(list[(i + |list| - 1) % |list|].id)
  {
    UniqueIdsDupFree(list);
    IndexOfDupFree(list, i);
    var n := |list|;
    if i + 1 < n {
      ModSmall(i + 1, n);
    } else {
      ModOnce(i + 1, n);
    }
    if i >= 1 {
      ModOnce(i + n - 1, n);
    } else {
      ModSmall(i + n - 1, n);
    }
  }

  lemma ModSmall(x: int, n: int)
    requires 0 <= x < n
    ensures x % n == x
  {
  }

  lemma ModOnce(x: int, n: int)
    requires n <= x < 2 * n
    ensures x % n == x - n
  {
  }

  /** With no active player (or one outside the list) forward picks the first
      player and backward the last; on an empty list nothing changes. */
  lemma NextPlayerFromNone(list: seq<Player>, active: Option<Player>)
    requires active.None? || active.value !in list
    ensures list == [] ==> NextPlayer(list, active, true) == None && NextPlayer(list, active, false) == None
    ensures list != [] ==> NextPlayer(list, active, true) == Some(list[0].id)
    ensures list != [] ==> NextPlayer(list, active, false) == Some(list[|list| - 1].id)
  {
  }

  /** A step forward followed by a step backward returns to the same player. */
  lemma ForwardThenBack(list: seq<Player>, i: int)
    requires UniquePlayerIds(list) && 0 <= i < |list|
    ensures NextPlayer(list, Some(list[i]), true).Some?
    ensures var next := NextPlayer(list, Some(list[i]), true).value;
            NextPlayer(list, FindPlayer(list, next), false) == Some(list[i].id)
  {
    var n := |list|;
    var j := (i + 1) % n;
    StepBackIndex(i, n);
    NextPlayerSpec(list, i);
    assert NextPlayer(list, Some(list[i]), true) == Some(list[j].id);
    FindPlayerAt(list, j);
    NextPlayerSpec(list, j);
    assert NextPlayer(list, Some(list[j]), false) == Some(list[i].id);
  }

  /** Stepping one place forward then one back, around `n` places, returns. */
  lemma StepBackIndex(i: int, n: int)
    requires 0 <= i < n
    ensures 0 <= (i + 1) % n < n && ((i + 1) % n + n - 1) % n == i
  {
    if i + 1 < n {
      ModSmall(i + 1, n);
      ModOnce(i + 1 + n - 1, n);
    } else {
      ModOnce(i + 1, n);
      ModSmall(n - 1, n);
    }
  }

  // ---------------------------------------------------------------- pseudo-random pick

  /** Where a pseudo-random run ends: the value its animation settles on, and
      the id it makes active when it finishes. */
  datatype Run = Run(playerId: int, target: int)

  /** The run `startPseudoRandomAnimation` launches, or None when there is
      none. The source returns early when the player is not in the list or,
      for the double indicator, has no entry in the chunk map; it throws when
      that entry is empty or its first chunk is, and there the model returns
      None. */
  function PseudoRandomRun(list: seq<Player>, chunks: map<Player, seq<seq<int>>>, ledCount: int,
                           playerId: int, t: RandomAnimationType): (r: Option<Run>)
    ensures r.Some? ==> r.value.playerId == playerId && IsActiveId(list, playerId)
    ensures t == FlashSides && r.Some? ==> |list| * 10 <= r.value.target < |list| * 11
  {
    match FindPlayer(list, playerId)
    case None => None
    case Some(p) =>
      match t
      case FlashSides => Some(Run(playerId, |list| * 10 + IndexOf(list, p)))
      case DoubleIndicator =>
        if p !in chunks || chunks[p] == [] || chunks[p][0] == [] then None
        else
          var chunk := chunks[p][0];
          Some(Run(playerId, ledCount * 10 + chunk[|chunk| / 2]))
  }

  lemma MultipleMod(n: int, r: int)
    requires 0 <= r < n
    ensures (n * 10 + r) % n == r
  {
  }

  /** The flashing run exists exactly when the player is listed, and settles on
      that player: the side index it ends on, taken modulo the list's length,
      is the player's place in the list. */
  lemma FlashSettlesOnPlayer(list: seq<Player>, chunks: map<Player, seq<seq<int>>>, ledCount: int, playerId: int)
    ensures PseudoRandomRun(list, chunks, ledCount, playerId, FlashSides).Some? <==> IsActiveId(list, playerId)
    ensures var r := PseudoRandomRun(list, chunks, ledCount, playerId, FlashSides);
            r.Some? ==> r.value.playerId == playerId && 0 <= r.value.target % |list| < |list| &&
                        list[r.value.target % |list|].id == playerId
  {
    var r := PseudoRandomRun(list, chunks, ledCount, playerId, FlashSides);
    if IsActiveId(list, playerId) {
      var i :| 0 <= i < |list| && list[i].id == playerId;
      assert FindPlayer(list, playerId).Some?;
    }
    if r.Some? {
      var p := FindPlayer(list, playerId).value;
      MultipleMod(|list|, IndexOf(list, p));
    }
  }

  /** The double-indicator run settles, modulo the strip length, on the middle
      LED of the player's first chunk. */
  lemma DoubleSettlesOnChunk(list: seq<Player>, chunks: map<Player, seq<seq<int>>>, ledCount: int, playerId: int)
    requires FindPlayer(list, playerId).Some?
    requires var p := FindPlayer(list, playerId).value;
             p in chunks && chunks[p] != [] && chunks[p][0] != [] &&
             0 <= chunks[p][0][|chunks[p][0]| / 2] < ledCount
    ensures var r := PseudoRandomRun(list, chunks, ledCount, playerId, DoubleIndicator);
            var chunk := chunks[FindPlayer(list, playerId).value][0];
            r == Some(Run(playerId, r.value.target)) && r.value.target % ledCount == chunk[|chunk| / 2]
  {
    var chunk := chunks[FindPlayer(list, playerId).value][0];
    MultipleMod(ledCount, chunk[|chunk| / 2]);
  }

  // ---------------------------------------------------------------- LED filter

  /** The chunks of the active player, none when there is no active player. */
  function ActiveChunks(players: seq<Player>, activeId: int, chunks: map<Player, seq<seq<int>>>): seq<seq<int>>
  {
    match FindPlayer(players, activeId)
    case None => []
    case Some(p) => if p in chunks then chunks[p] else []
  }

  /** An even position among the first `k` of the chunk holds `led`. */
  predicate MarkedIn(chunk: seq<int>, k: int, led: int)
    requires k <= |chunk|
  {
    exists i :: 0 <= i < k && i % 2 == 0 && chunk[i] == led
  }

  /** One of the first `n` chunks holds `led` at an even position. */
  predicate ShadedBy(cs: seq<seq<int>>, n: int, led: int)
    requires n <= |cs|
  {
    exists c :: 0 <= c < n && MarkedIn(cs[c], |cs[c]|, led)
  }

  /** The filter writes only the even positions, and those must be LEDs of the strip. */
  predicate ChunksInStrip(cs: seq<seq<int>>, ledCount: int)
  {
    forall c, i :: 0 <= c < |cs| && 0 <= i < |cs[c]| && i % 2 == 0 ==> 0 <= cs[c][i] < ledCount
  }

  /** The filter for a set of chunks: 80% shade on every LED that some chunk
      holds at an even position, transparent elsewhere. */
  function FilterFrame(cs: seq<seq<int>>, ledCount: nat): (r: seq<LedColor>)
    ensures |r| == ledCount
    ensures forall led :: 0 <= led < ledCount ==> r[led] == Shade80 || r[led] == Transparent
    ensures cs == [] ==> forall led :: 0 <= led < ledCount ==> r[led] == Transparent
  {
    seq(ledCount, led => if ShadedBy(cs, |cs|, led) then Shade80 else Transparent)
  }

  /** One pass of `forEachIndexed` marks position `i` when it is even. */
  lemma MarkedInStep(chunk: seq<int>, i: int)
    requires 0 <= i < |chunk|
    ensures forall led :: MarkedIn(chunk, i + 1, led) <==> MarkedIn(chunk, i, led) || (i % 2 == 0 && chunk[i] == led)
  {
    forall led
      ensures MarkedIn(chunk, i + 1, led) <==> MarkedIn(chunk, i, led) || (i % 2 == 0 && chunk[i] == led)
    {
      if MarkedIn(chunk, i + 1, led) {
        var j :| 0 <= j < i + 1 && j % 2 == 0 && chunk[j] == led;
        if j < i {
          assert MarkedIn(chunk, i, led);
        }
      }
      if i % 2 == 0 && chunk[i] == led {
        assert MarkedIn(chunk, i + 1, led);
      }
      if MarkedIn(chunk, i, led) {
        var j :| 0 <= j < i && j % 2 == 0 && chunk[j] == led;
        assert MarkedIn(chunk, i + 1, led);
      }
    }
  }

  /** One pass of the outer `forEach` adds the LEDs chunk `c` marks. */
  lemma ShadedByStep(cs: seq<seq<int>>, c: int)
    requires 0 <= c < |cs|
    ensures forall led :: ShadedBy(cs, c + 1, led) <==> ShadedBy(cs, c, led) || MarkedIn(cs[c], |cs[c]|, led)
  {
    forall led
      ensures ShadedBy(cs, c + 1, led) <==> ShadedBy(cs, c, led) || MarkedIn(cs[c], |cs[c]|, led)
    {
      if ShadedBy(cs, c + 1, led) {
        var d :| 0 <= d < c + 1 && MarkedIn(cs[d], |cs[d]|, led);
        if d < c {
          assert ShadedBy(cs, c, led);
        }
      }
      if MarkedIn(cs[c], |cs[c]|, led) {
        assert ShadedBy(cs, c + 1, led);
      }
      if ShadedBy(cs, c, led) {
        var d :| 0 <= d < c && MarkedIn(cs[d], |cs[d]|, led);
        assert ShadedBy(cs, c + 1, led);
      }
    }
  }

  /** With no active player, or one without chunks, the filter is all transparent. */
  lemma NoChunksTransparent(ledCount: nat)
    ensures forall led :: 0 <= led < ledCount ==> FilterFrame([], ledCount)[led] == Transparent
  {
  }

  /** For a chunk that is a run of consecutive LEDs, every other LED from the
      chunk's first is shaded and the rest of the strip is not. */
  lemma ConsecutiveChunk(lo: int, hi: int, ledCount: nat, led: int)
    requires 0 <= led < ledCount
    ensures FilterFrame([Table.Range(lo, hi)], ledCount)[led] == Shade80 <==> lo <= led < hi && (led - lo) % 2 == 0
  {
    var chunk := Table.Range(lo, hi);
    if lo <= led < hi && (led - lo) % 2 == 0 {
      assert chunk[led - lo] == led;
      assert MarkedIn(chunk, |chunk|, led);
      assert ShadedBy([chunk], 1, led) by {
        assert [chunk][0] == chunk;
      }
    }
    if ShadedBy([chunk], 1, led) {
      assert [chunk][0] == chunk;
      var i :| 0 <= i < |chunk| && i % 2 == 0 && chunk[i] == led;
    }
  }

  // ---------------------------------------------------------------- the module

  class TurnModule {
    const ledCount: nat
    /** `_activePlayerId`: 0 means no active player. */
    var activePlayerId: int
    /** `_playerOrder` */
    var playerOrder: seq<int>
    /** The shade drawn over the strip to mark the active player. */
    const ledFilter: array<LedColor>
    /** The pseudo-random run in progress (`randomJob`), described by where it ends. */
    var run: Option<Run>

    ghost predicate Valid()
      reads this
    {
      ledFilter.Length == ledCount
    }

    /** No active player, an empty order, a transparent filter and no run. */
    constructor (ledCount: nat)
      ensures Valid() && this.ledCount == ledCount && fresh(ledFilter)
      ensures activePlayerId == 0 && playerOrder == [] && run == None
      ensures ledFilter[..] == FilterFrame([], ledCount)
    {
      this.ledCount := ledCount;
      activePlayerId := 0;
      playerOrder := [];
      run := None;
      ledFilter := new LedColor[ledCount](_ => Transparent);
    }

    /** The collector on the active players: append the missing ids in
        active-player order, then remove the ids no active player has. */
    method ReconcileOrder(players: seq<Player>)
      modifies this
      ensures playerOrder == ReconciledOrder(old(playerOrder), players)
      ensures activePlayerId == old(activePlayerId) && run == old(run)
    {
      var newOrder := playerOrder;
      var i := 0;
      while i < |players|
        invariant 0 <= i <= |players|
        invariant newOrder == AppendMissing(playerOrder, players[..i])
        invariant unchanged(this)
      {
        AppendMissingStep(playerOrder, players, i);
        if players[i].id !in newOrder {
          newOrder := newOrder + [players[i].id];
        }
        i := i + 1;
      }
      assert players[..i] == players;
      var kept: seq<int> := [];
      var j := 0;
      while j < |newOrder|
        invariant 0 <= j <= |newOrder|
        invariant kept == Filter(newOrder[..j], ActiveTest(players))
        invariant unchanged(this)
      {
        FilterStep(newOrder, j, players);
        if IsActiveId(players, newOrder[j]) {
          kept := kept + [newOrder[j]];
        }
        j := j + 1;
      }
      assert newOrder[..j] == newOrder;
      playerOrder := kept;
    }

    /** The collector on the active player: clear the filter, then shade every
        even position of each of the active player's chunks. */
    method RefreshLedFilter(players: seq<Player>, chunks: map<Player, seq<seq<int>>>)
      requires Valid()
      requires ChunksInStrip(ActiveChunks(players, activePlayerId, chunks), ledCount)
      modifies ledFilter
      ensures ledFilter[..] == FilterFrame(ActiveChunks(players, activePlayerId, chunks), ledCount)
    {
      var k := 0;
      while k < ledFilter.Length
        invariant 0 <= k <= ledFilter.Length
        invariant forall led :: 0 <= led < k ==> ledFilter[led] == Transparent
      {
        ledFilter[k] := Transparent;
        k := k + 1;
      }
      var cs := ActiveChunks(players, activePlayerId, chunks);
      var c := 0;
      while c < |cs|
        invariant 0 <= c <= |cs|
        invariant forall led :: 0 <= led < ledFilter.Length ==>
                    ledFilter[led] == if ShadedBy(cs, c, led) then Shade80 else Transparent
      {
        var chunk := cs[c];
        var i := 0;
        while i < |chunk|
          invariant 0 <= i <= |chunk|
          invariant forall led :: 0 <= led < ledFilter.Length ==>
                      ledFilter[led] == if ShadedBy(cs, c, led) || MarkedIn(chunk, i, led) then Shade80 else Transparent
        {
          MarkedInStep(chunk, i);
          if i % 2 == 0 {
            ledFilter[chunk[i]] := Shade80;
          }
          i := i + 1;
        }
        ShadedByStep(cs, c);
        c := c + 1;
      }
      assert ledFilter[..] == FilterFrame(cs, ledCount);
    }

    /** `setPlayerOrder` */
    method SetPlayerOrder(newOrder: seq<int>)
      modifies this
      ensures playerOrder == SetOrder(old(playerOrder), newOrder)
      ensures activePlayerId == old(activePlayerId) && run == old(run)
    {
      if !AcceptsOrder(playerOrder, newOrder) {
        return;
      }
      playerOrder := newOrder;
    }

    /** `setPlayerOrderFromTable`: the seated players' ids, in seat order. */
    method SetPlayerOrderFromTable(seats: seq<Option<Player>>)
      modifies this
      ensures playerOrder == SetOrder(old(playerOrder), SeatedIds(seats))
      ensures activePlayerId == old(activePlayerId) && run == old(run)
    {
      SetPlayerOrder(SeatedIds(seats));
    }

    /** `setActivePlayer`: any id is stored as it is. */
    method SetActivePlayer(playerId: int)
      modifies this
      ensures activePlayerId == playerId
      ensures playerOrder == old(playerOrder) && run == old(run)
    {
      activePlayerId := playerId;
    }

    /** `resetActivePlayer` */
    method ResetActivePlayer()
      modifies this
      ensures activePlayerId == 0
      ensures playerOrder == old(playerOrder) && run == old(run)
    {
      SetActivePlayer(0);
    }

    /** `setNextPlayerActive` */
    method SetNextPlayerActive(players: seq<Player>, forward: bool)
      modifies this
      ensures var next := NextPlayer(PlayerList(players, old(playerOrder)), FindPlayer(players, old(activePlayerId)), forward);
              activePlayerId == if next.Some? then next.value else old(activePlayerId)
      ensures playerOrder == old(playerOrder) && run == old(run)
    {
      var list := PlayerList(players, playerOrder);
      if list == [] {
        return;
      }
      var next := NextPlayer(list, FindPlayer(players, activePlayerId), forward);
      SetActivePlayer(next.value);
    }

    /** `startPseudoRandomAnimation`: the previous run is cancelled and the
        active id is 0 until the new run, if any, finishes. */
    method StartPseudoRandomAnimation(players: seq<Player>, chunks: map<Player, seq<seq<int>>>,
                                      playerId: int, t: RandomAnimationType)
      modifies this
      ensures activePlayerId == 0
      ensures run == PseudoRandomRun(PlayerList(players, old(playerOrder)), chunks, ledCount, playerId, t)
      ensures playerOrder == old(playerOrder)
    {
      run := None;
      SetActivePlayer(0);
      run := PseudoRandomRun(PlayerList(players, playerOrder), chunks, ledCount, playerId, t);
    }

    /** `setRandomPlayerActive`: nothing on an empty list, otherwise a run for
        the player at `pick`, the index `list.random()` chose. */
    method SetRandomPlayerActive(players: seq<Player>, chunks: map<Player, seq<seq<int>>>,
                                 t: RandomAnimationType, pick: int)
      requires PlayerList(players, playerOrder) != [] ==> 0 <= pick < |PlayerList(players, playerOrder)|
      modifies this
      ensures var list := PlayerList(players, old(playerOrder));
              if list == [] then activePlayerId == old(activePlayerId) && run == old(run)
              else activePlayerId == 0 && run == PseudoRandomRun(list, chunks, ledCount, list[pick].id, t)
      ensures playerOrder == old(playerOrder)
    {
      var list := PlayerList(players, playerOrder);
      if list == [] {
        return;
      }
      StartPseudoRandomAnimation(players, chunks, list[pick].id, t);
    }

    /** The end of the run in progress: its player becomes active, once. */
    method FinishPseudoRandomAnimation()
      modifies this
      ensures old(run).Some? ==> activePlayerId == old(run).value.playerId
      ensures old(run).None? ==> activePlayerId == old(activePlayerId)
      ensures run == None && playerOrder == old(playerOrder)
    {
      if run.Some? {
        SetActivePlayer(run.value.playerId);
      }
      run := None;
    }
  }
}
