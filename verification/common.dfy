/** Value types shared by every part of the table model. */
module Common {

  datatype Option<T> = None | Some(value: T)

  /** An LED colour. The colour arithmetic is floating point and is not part of
      this model, so a colour is an opaque value: the named constants the
      program uses, and any other colour as a tagged value. */
  datatype LedColor =
    | Transparent      // LedColor(0, 0, 0, 0), also LedColor()
    | Full             // LedColor(1, 1, 1, 1), also the default timer fill
    | Dark             // the timer's "stopped" colour
    | Shade80          // LedColor(alpha = 0.8): black at 80% opacity
    | Custom(code: nat)

  /** A colour of the user interface toolkit. */
  datatype UiColor = Green | Red | Gray | FromLed(led: LedColor)

  /** `LedColor.toColor()`: the interface colour showing an LED colour. */
  function ToColor(c: LedColor): (r: UiColor)
    ensures r.FromLed? && r.led == c
  {
    FromLed(c)
  }

  /** A stored player. */
  datatype Player = Player(id: int, name: string, color: LedColor)

  /** No two players share an id. */
  predicate UniquePlayerIds(players: seq<Player>)
  {
    forall i, j :: 0 <= i < j < |players| ==> players[i].id != players[j].id
  }

  /** `players.map { it.id }` */
  function PlayerIds(players: seq<Player>): (r: seq<int>)
    ensures |r| == |players|
    ensures forall i :: 0 <= i < |players| ==> r[i] == players[i].id
  {
    if players == [] then [] else [players[0].id] + PlayerIds(players[1..])
  }

  /** The first index holding a player with that id, or -1. */
  function IndexOfId(players: seq<Player>, id: int): (k: int)
    ensures -1 <= k < |players|
    ensures k == -1 <==> forall i :: 0 <= i < |players| ==> players[i].id != id
    ensures k >= 0 ==> players[k].id == id && forall j :: 0 <= j < k ==> players[j].id != id
  {
    if players == [] then -1
    else if players[0].id == id then 0
    else
      var k := IndexOfId(players[1..], id);
      if k == -1 then -1 else k + 1
  }

  /** `players.find { it.id == id }` */
  function FindPlayer(players: seq<Player>, id: int): (r: Option<Player>)
    ensures r.Some? ==> r.value in players && r.value.id == id
    ensures r.None? <==> forall p :: p in players ==> p.id != id
  {
    var k := IndexOfId(players, id);
    if k == -1 then None else Some(players[k])
  }

  /** With unique ids, finding by id finds exactly the player at that index. */
  lemma FindPlayerAt(players: seq<Player>, i: int)
    requires UniquePlayerIds(players)
    requires 0 <= i < |players|
    ensures FindPlayer(players, players[i].id) == Some(players[i])
  {
    var k := IndexOfId(players, players[i].id);
    assert k == i;
  }
}
