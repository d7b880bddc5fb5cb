/** `TurnViewModel`: the turn screen's buttons, forwarded to the turn module,
    and the animation type used for random picks. */
module TurnControl {
  import opened Common
  import opened Seqs
  import opened Turns

  /** `setPlayerActive`: the id the toggle stores. Choosing the active player
      again clears it to 0; any other id is stored. */
  function Toggle(current: Option<Player>, playerId: int): (r: int)
    ensures r == 0 || r == playerId
    ensures current.Some? && current.value.id == playerId ==> r == 0
  {
    if current.Some? && current.value.id == playerId then 0 else playerId
  }

  /** The `activePlayerId` the screen shows. */
  function ShownActiveId(current: Option<Player>): (r: int)
    ensures r != 0 ==> current.Some? && current.value.id == r
    ensures Toggle(current, r) == 0
  {
    if current.Some? then current.value.id else 0
  }

  /** The toggle clears exactly when the chosen id is the active player's, and
      toggling an active player's id twice from any other state clears it again. */
  lemma ToggleSpec(players: seq<Player>, activeId: int, playerId: int)
    ensures Toggle(FindPlayer(players, activeId), playerId) == 0 <==>
            playerId == 0 || (IsActiveId(players, activeId) && activeId == playerId)
    ensures IsActiveId(players, playerId) && Toggle(FindPlayer(players, activeId), playerId) == playerId ==>
            Toggle(FindPlayer(players, playerId), playerId) == 0
  {
    if IsActiveId(players, activeId) {
      var i :| 0 <= i < |players| && players[i].id == activeId;
      assert FindPlayer(players, activeId).Some?;
    }
    if IsActiveId(players, playerId) {
      var i :| 0 <= i < |players| && players[i].id == playerId;
      assert FindPlayer(players, playerId).Some?;
    }
  }

  /** The shown id is the stored id when an active player has it, and 0 otherwise. */
  lemma ShownActiveIdSpec(players: seq<Player>, activeId: int)
    ensures IsActiveId(players, activeId) ==> ShownActiveId(FindPlayer(players, activeId)) == activeId
    ensures !IsActiveId(players, activeId) ==> ShownActiveId(FindPlayer(players, activeId)) == 0
  {
    if IsActiveId(players, activeId) {
      var i :| 0 <= i < |players| && players[i].id == activeId;
      assert FindPlayer(players, activeId).Some?;
    }
  }

  /** Two players of a list with unique ids that share an id are the same player. */
  lemma SameIdSamePlayer(players: seq<Player>, p: Player, q: Player)
    requires UniquePlayerIds(players) && p in players && q in players && p.id == q.id
    ensures p == q
  {
    var i :| 0 <= i < |players| && players[i] == p;
    var j :| 0 <= j < |players| && players[j] == q;
    assert i == j;
  }

  /** Once reconciled, the order holds each active id exactly once. */
  ghost predicate Reconciled(players: seq<Player>, order: seq<int>)
  {
    DupFree(order) && forall x :: x in order <==> IsActiveId(players, x)
  }

  /** Submitting the ids of any rearrangement `m` of the active players is
      accepted, and the player list then shows exactly `m`. */
  lemma RearrangementShown(players: seq<Player>, order: seq<int>, m: seq<Player>)
    requires UniquePlayerIds(players) && Reconciled(players, order)
    requires UniquePlayerIds(m) && forall p :: p in m <==> p in players
    ensures AcceptsOrder(order, PlayerIds(m)) && Reconciled(players, PlayerIds(m))
    ensures PlayerList(players, PlayerIds(m)) == m
  {
    var ids := PlayerIds(m);
    forall x ensures x in ids <==> IsActiveId(players, x) {
      if x in ids {
        var k :| 0 <= k < |ids| && ids[k] == x;
        assert m[k] in players;
        var i :| 0 <= i < |players| && players[i] == m[k];
      }
      if IsActiveId(players, x) {
        var i :| 0 <= i < |players| && players[i].id == x;
        assert players[i] in m;
        var k :| 0 <= k < |m| && m[k] == players[i];
        assert ids[k] == x;
      }
    }
    assert DupFree(ids) by {
      forall a, b | 0 <= a < b < |ids| ensures ids[a] != ids[b] {
        assert m[a].id != m[b].id;
      }
    }
    PlayerListFollowsOrder(players, ids);
    var l := PlayerList(players, ids);
    forall k | 0 <= k < |l| ensures l[k] == m[k] {
      assert l[k] in multiset(players);
      SameIdSamePlayer(players, l[k], m[k]);
    }
  }

  /** The list shown for a reconciled order has unique ids and holds exactly
      the active players. */
  lemma ListedPlayers(players: seq<Player>, order: seq<int>)
    requires UniquePlayerIds(players)
    ensures UniquePlayerIds(PlayerList(players, order))
    ensures forall p :: p in PlayerList(players, order) <==> p in players
  {
    SortByUniqueKeys(players, OrderKey(order), PlayerId);
    SameMultisetSameSet(PlayerList(players, order), players);
    var l := PlayerList(players, order);
    forall i, j | 0 <= i < j < |l| ensures l[i].id != l[j].id {
      assert PlayerId(l[i]) != PlayerId(l[j]);
    }
  }

  /** The ids `movePlayerPosition` submits. */
  function MovedOrder(list: seq<Player>, from: int, to: int): seq<int>
    requires 0 <= from < |list| && 0 <= to < |list|
  {
    PlayerIds(Move(list, from, to))
  }

  /** On a reconciled order a move is accepted, and the list then shows the
      moved player at its new place with the others in their old order. */
  lemma MoveAccepted(players: seq<Player>, order: seq<int>, from: int, to: int)
    requires UniquePlayerIds(players) && Reconciled(players, order)
    requires 0 <= from < |PlayerList(players, order)| && 0 <= to < |PlayerList(players, order)|
    ensures var list := PlayerList(players, order);
            AcceptsOrder(order, MovedOrder(list, from, to)) &&
            PlayerList(players, MovedOrder(list, from, to)) == Move(list, from, to)
  {
    var list := PlayerList(players, order);
    var m := Move(list, from, to);
    ListedPlayers(players, order);
    MoveSpec(list, from, to);
    SameMultisetSameSet(m, list);
    MoveUniqueKeys(list, from, to, PlayerId);
    assert UniquePlayerIds(m) by {
      forall i, j | 0 <= i < j < |m| ensures m[i].id != m[j].id {
        assert PlayerId(m[i]) != PlayerId(m[j]);
      }
    }
    RearrangementShown(players, order, m);
  }

  /** The ids `reversePlayerOrder` submits. */
  function ReversedOrder(list: seq<Player>): seq<int>
  {
    PlayerIds(Reverse(list))
  }

  /** For a reconciled order the shown list's ids are the order itself. */
  lemma ListIdsAreOrder(players: seq<Player>, order: seq<int>)
    requires UniquePlayerIds(players) && Reconciled(players, order)
    ensures PlayerIds(PlayerList(players, order)) == order
  {
    PlayerListFollowsOrder(players, order);
  }

  lemma ReverseUniqueIds(list: seq<Player>)
    requires UniquePlayerIds(list)
    ensures UniquePlayerIds(Reverse(list))
  {
    var r := Reverse(list);
    forall i, j | 0 <= i < j < |r| ensures r[i].id != r[j].id {
      assert r[i] == list[|list| - 1 - i] && r[j] == list[|list| - 1 - j];
    }
  }

  /** On a reconciled order a reversal is accepted and the list shows the
      players reversed; reversing a second time restores the order. */
  lemma ReverseAccepted(players: seq<Player>, order: seq<int>)
    requires UniquePlayerIds(players) && Reconciled(players, order)
    ensures var list := PlayerList(players, order);
            AcceptsOrder(order, ReversedOrder(list)) &&
            PlayerList(players, ReversedOrder(list)) == Reverse(list)
    ensures ReversedOrder(PlayerList(players, ReversedOrder(PlayerList(players, order)))) == order
  {
    var list := PlayerList(players, order);
    var r := Reverse(list);
    ListedPlayers(players, order);
    ReverseMultiset(list);
    SameMultisetSameSet(r, list);
    ReverseUniqueIds(list);
    RearrangementShown(players, order, r);
    assert PlayerList(players, ReversedOrder(list)) == r;
    ReverseReverse(list);
    assert ReversedOrder(r) == PlayerIds(list);
    ListIdsAreOrder(players, order);
  }

  class TurnViewModel {
    const turnModule: TurnModule
    /** `_randomAnimType` */
    var randomAnimType: RandomAnimationType

    /** Random picks start with the double indicator. */
    constructor (turnModule: TurnModule)
      ensures this.turnModule == turnModule && randomAnimType == DoubleIndicator
    {
      this.turnModule := turnModule;
      randomAnimType := DoubleIndicator;
    }

    /** `setPlayerActive` */
    method SetPlayerActive(players: seq<Player>, playerId: int)
      modifies turnModule
      ensures turnModule.activePlayerId == Toggle(FindPlayer(players, old(turnModule.activePlayerId)), playerId)
      ensures turnModule.playerOrder == old(turnModule.playerOrder) && turnModule.run == old(turnModule.run)
    {
      var current := FindPlayer(players, turnModule.activePlayerId);
      if current.Some? && current.value.id == playerId {
        turnModule.ResetActivePlayer();
      } else {
        turnModule.SetActivePlayer(playerId);
      }
    }

    /** `movePlayerPosition`: `removeAt(from)` then `add(to, item)` on the
        shown list, submitted as ids. Where `removeAt` or `add` fails with an
        index error (a stale `from` after the list shrank, say), `ok` is false
        and nothing changes. */
    method MovePlayerPosition(players: seq<Player>, from: int, to: int) returns (ok: bool)
      modifies turnModule
      ensures var n := |PlayerList(players, old(turnModule.playerOrder))|;
              ok <==> 0 <= from < n && 0 <= to < n
      ensures ok ==>
                turnModule.playerOrder ==
                  SetOrder(old(turnModule.playerOrder), MovedOrder(PlayerList(players, old(turnModule.playerOrder)), from, to))
      ensures !ok ==> turnModule.playerOrder == old(turnModule.playerOrder)
      ensures turnModule.activePlayerId == old(turnModule.activePlayerId) && turnModule.run == old(turnModule.run)
    {
      var list := PlayerList(players, turnModule.playerOrder);
      if from < 0 || from >= |list| {
        return false;
      }
      var item := list[from];
      var newList := RemoveAt(list, from);
      if to < 0 || to > |newList| {
        return false;
      }
      newList := InsertAt(newList, to, item);
      turnModule.SetPlayerOrder(PlayerIds(newList));
      ok := true;
    }

    /** `reversePlayerOrder` */
    method ReversePlayerOrder(players: seq<Player>)
      modifies turnModule
      ensures turnModule.playerOrder ==
              SetOrder(old(turnModule.playerOrder), ReversedOrder(PlayerList(players, old(turnModule.playerOrder))))
      ensures turnModule.activePlayerId == old(turnModule.activePlayerId) && turnModule.run == old(turnModule.run)
    {
      turnModule.SetPlayerOrder(PlayerIds(Reverse(PlayerList(players, turnModule.playerOrder))));
    }

    /** `setRandomPlayerActive`, with the current animation type. */
    method SetRandomPlayerActive(players: seq<Player>, chunks: map<Player, seq<seq<int>>>, pick: int)
      requires PlayerList(players, turnModule.playerOrder) != [] ==> 0 <= pick < |PlayerList(players, turnModule.playerOrder)|
      modifies turnModule
      ensures var list := PlayerList(players, old(turnModule.playerOrder));
              if list == [] then turnModule.activePlayerId == old(turnModule.activePlayerId) && turnModule.run == old(turnModule.run)
              else turnModule.activePlayerId == 0 &&
                   turnModule.run == PseudoRandomRun(list, chunks, turnModule.ledCount, list[pick].id, randomAnimType)
      ensures turnModule.playerOrder == old(turnModule.playerOrder)
    {
      turnModule.SetRandomPlayerActive(players, chunks, randomAnimType, pick);
    }

    /** `setPseudoRandomActive`, with the current animation type. */
    method SetPseudoRandomActive(players: seq<Player>, chunks: map<Player, seq<seq<int>>>, playerId: int)
      modifies turnModule
      ensures turnModule.activePlayerId == 0
      ensures turnModule.run ==
              PseudoRandomRun(PlayerList(players, old(turnModule.playerOrder)), chunks, turnModule.ledCount, playerId, randomAnimType)
      ensures turnModule.playerOrder == old(turnModule.playerOrder)
    {
      turnModule.StartPseudoRandomAnimation(players, chunks, playerId, randomAnimType);
    }

    /** `setNextPlayerActive` */
    method SetNextPlayerActive(players: seq<Player>, forward: bool)
      modifies turnModule
      ensures var next := NextPlayer(PlayerList(players, old(turnModule.playerOrder)),
                                     FindPlayer(players, old(turnModule.activePlayerId)), forward);
              turnModule.activePlayerId == if next.Some? then next.value else old(turnModule.activePlayerId)
      ensures turnModule.playerOrder == old(turnModule.playerOrder) && turnModule.run == old(turnModule.run)
    {
      turnModule.SetNextPlayerActive(players, forward);
    }

    /** `setOrderFromTable` */
    method SetOrderFromTable(seats: seq<Option<Player>>)
      modifies turnModule
      ensures turnModule.playerOrder == SetOrder(old(turnModule.playerOrder), SeatedIds(seats))
      ensures turnModule.activePlayerId == old(turnModule.activePlayerId) && turnModule.run == old(turnModule.run)
    {
      turnModule.SetPlayerOrderFromTable(seats);
    }

    /** `setRandomAnimType` */
    method SetRandomAnimType(t: RandomAnimationType)
      modifies this
      ensures randomAnimType == t
    {
      randomAnimType := t;
    }
  }
}
