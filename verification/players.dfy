/** `PlayerRepository`: the seat array (which player sits at which side of the
    table), the seat map derived from it, and the guard on renaming. The player
    list itself is loaded from the database; here it is a field that the
    database layer, not modelled, fills. */
module Players {
  import opened Common
  import opened Table

  /** `playerMap`: for each seat index, the player with the stored id, or none
      when the seat is empty or no such player exists (for instance after the
      player was removed). Index `i` holds the entry for key `i`. */
  function PlayerMap(players: seq<Player>, seats: seq<Option<int>>): (r: seq<Option<Player>>)
    ensures |r| == |seats|
  {
    seq(|seats|, i requires 0 <= i < |seats| =>
      if seats[i].Some? then FindPlayer(players, seats[i].value) else None)
  }

  /** A seat shows a player exactly when it stores an id some player has, and
      then it shows a player with that id; with unique ids it is the one player
      with that id. */
  lemma PlayerMapSpec(players: seq<Player>, seats: seq<Option<int>>, i: int)
    requires 0 <= i < |seats|
    ensures PlayerMap(players, seats)[i].Some? <==>
            seats[i].Some? && exists p :: p in players && p.id == seats[i].value
    ensures PlayerMap(players, seats)[i].Some? ==>
            PlayerMap(players, seats)[i].value in players &&
            PlayerMap(players, seats)[i].value.id == seats[i].value
    ensures UniquePlayerIds(players) ==>
            forall j :: 0 <= j < |players| && seats[i] == Some(players[j].id) ==>
              PlayerMap(players, seats)[i] == Some(players[j])
  {
    if UniquePlayerIds(players) {
      forall j | 0 <= j < |players| && seats[i] == Some(players[j].id)
        ensures PlayerMap(players, seats)[i] == Some(players[j])
      {
        FindPlayerAt(players, j);
      }
    }
  }

  /** Removing a player's record empties every seat that held it. */
  lemma RemovedPlayerUnseated(players: seq<Player>, seats: seq<Option<int>>, id: int, i: int)
    requires 0 <= i < |seats| && seats[i] == Some(id)
    requires forall p :: p in players ==> p.id != id
    ensures PlayerMap(players, seats)[i].None?
  {
  }

  /** The seats after `setPlayerSide(sideId, playerId)`: a side id outside
      `getSides()` or beyond the array changes nothing; otherwise only that slot
      is overwritten, and the id is not checked against the stored players. */
  function SeatsAfter(c: BaseConfig, seats: seq<Option<int>>, sideId: int, playerId: Option<int>): (r: seq<Option<int>>)
    ensures |r| == |seats|
    ensures forall k :: 0 <= k < |seats| && k != sideId ==> r[k] == seats[k]
  {
    if sideId !in GetSides(c) then seats
    else if sideId >= |seats| then seats
    else seats[sideId := playerId]
  }

  /** The update lands exactly when the side id is one of the table's sides and
      a slot of the array; only that slot changes, and clearing stores none. */
  lemma SeatsAfterSpec(c: BaseConfig, seats: seq<Option<int>>, sideId: int, playerId: Option<int>)
    ensures |SeatsAfter(c, seats, sideId, playerId)| == |seats|
    ensures forall k :: 0 <= k < |seats| && k != sideId ==> SeatsAfter(c, seats, sideId, playerId)[k] == seats[k]
    ensures 0 <= sideId < SideCount(c) && sideId < |seats| ==> SeatsAfter(c, seats, sideId, playerId)[sideId] == playerId
    ensures !(0 <= sideId < SideCount(c) && sideId < |seats|) ==> SeatsAfter(c, seats, sideId, playerId) == seats
  {
    if 0 <= sideId < SideCount(c) {
      assert GetSides(c)[sideId] == sideId;
    }
  }

  /** Seating a stored player (ids unique) at a side shows that player there
      and leaves every other seat's entry as it was. */
  lemma SeatThenMap(c: BaseConfig, players: seq<Player>, seats: seq<Option<int>>, sideId: int, j: int)
    requires UniquePlayerIds(players) && 0 <= j < |players|
    requires 0 <= sideId < SideCount(c) && sideId < |seats|
    ensures var after := PlayerMap(players, SeatsAfter(c, seats, sideId, Some(players[j].id)));
            after[sideId] == Some(players[j]) &&
            forall k :: 0 <= k < |seats| && k != sideId ==> after[k] == PlayerMap(players, seats)[k]
  {
    SeatsAfterSpec(c, seats, sideId, Some(players[j].id));
    PlayerMapSpec(players, SeatsAfter(c, seats, sideId, Some(players[j].id)), sideId);
  }

  /** `Char.isWhitespace()`: the Unicode space, line and paragraph separators
      and the control characters tab to carriage return and `\u001C`..`\u001F`. */
  predicate IsWhitespace(ch: char)
  {
    var u := ch as int;
    u == 0x20 || 0x09 <= u <= 0x0D || 0x1C <= u <= 0x1F ||
    u == 0xA0 || u == 0x1680 || 0x2000 <= u <= 0x200A ||
    u == 0x2028 || u == 0x2029 || u == 0x202F || u == 0x205F || u == 0x3000
  }

  /** `String.isBlank()`: empty, or whitespace only. */
  predicate IsBlank(name: string)
    ensures name == [] ==> IsBlank(name)
    ensures IsBlank(name) ==> forall k :: 0 <= k < |name| ==> !('0' <= name[k] <= '9' || 'A' <= name[k] <= 'Z' || 'a' <= name[k] <= 'z')
  {
    forall k :: 0 <= k < |name| ==> IsWhitespace(name[k])
  }

  /** The empty name and a whitespace-only name are blank; the name given to a
      newly added player is not. */
  lemma BlankNames()
    ensures IsBlank("") && IsBlank(" \t ")
    ensures !IsBlank("New Player")
  {
    assert !IsWhitespace("New Player"[0]);
  }

  class PlayerRepository {
    const config: BaseConfig
    /** `_players`: the stored players. */
    var players: seq<Player>
    /** `_playerMap`: the id seated at each side, if any. */
    var seats: seq<Option<int>>

    ghost predicate Valid()
      reads this
    {
      |seats| == SideCount(config)
    }

    /** No players yet and one empty seat per side. */
    constructor (config: BaseConfig)
      ensures this.config == config && Valid()
      ensures players == [] && forall k :: 0 <= k < |seats| ==> seats[k].None?
    {
      this.config := config;
      players := [];
      seats := seq(SideCount(config), _ => None);
    }

    /** `playerMap` */
    function Map(): (r: seq<Option<Player>>)
      reads this
      ensures |r| == |seats|
    {
      PlayerMap(players, seats)
    }

    /** `setPlayerSide` */
    method SetPlayerSide(sideId: int, playerId: Option<int>)
      requires Valid()
      modifies this
      ensures Valid() && players == old(players)
      ensures seats == SeatsAfter(config, old(seats), sideId, playerId)
    {
      if sideId !in GetSides(config) {
        return;
      }
      if sideId >= |seats| {
        return;
      }
      seats := seats[sideId := playerId];
    }

    /** `setPlayerName`: refuses a blank name; otherwise the rename is handed to
        the database, which is not modelled. */
    method SetPlayerName(playerId: int, name: string) returns (accepted: bool)
      ensures accepted <==> !IsBlank(name)
    {
      if forall k :: 0 <= k < |name| ==> IsWhitespace(name[k]) {
        return false;
      }
      return true;
    }
  }
}
