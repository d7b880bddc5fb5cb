/** `TurnRepository`: the initiative list. Slots take turns by slot id; the
    slot id whose turn it is is active, and the next slot of a team that can be
    "on deck" is flagged as on deck. */
module Initiative {
  import opened Common

  datatype Team = Team(teamId: int, teamName: string, teamColor: UiColor, canBeOnDeck: bool)

  /** A stored slot; several slots may share a slot id and then act together. */
  datatype Slot = Slot(slotId: int, name: string, color: UiColor, playerId: Option<int>,
                       teamId: Option<int>, initiativeValue: int)

  /** A row of the shown turn list. */
  datatype TurnSlot = TurnSlot(slotId: int, name: string, color: UiColor, player: Option<Player>,
                               team: Option<Team>, active: bool, onDeck: bool, initiativeValue: int)

  /** The teams the repository starts with. */
  function DefaultTeams(): seq<Team>
  {
    [ Team(0, "Players", Green, true),
      Team(1, "Enemies", Red, false),
      Team(2, "NPC's", Gray, false) ]
  }

  /** The slots the repository starts with. */
  function DefaultSlots(): seq<Slot>
  {
    [ Slot(0, "Character 1", Green, Some(1), Some(0), 12),
      Slot(0, "Minion of Character 1", Green, Some(1), Some(0), 12),
      Slot(1, "Enemy 1", Red, None, Some(1), 66),
      Slot(2, "Character 2", Green, None, Some(0), 78),
      Slot(2, "Minion of Character 2", Green, None, Some(0), 78),
      Slot(3, "Enemy 2", Red, None, Some(1), 78),
      Slot(4, "Random NPC", Gray, None, Some(2), 99) ]
  }

  /** `teamList.find { it.teamId == slot.teamId }`: no team for a slot without one. */
  function FindTeam(teams: seq<Team>, teamId: Option<int>): (r: Option<Team>)
    ensures r.Some? ==> r.value in teams && teamId == Some(r.value.teamId)
    ensures r.None? <==> teamId.None? || forall t :: t in teams ==> t.teamId != teamId.value
  {
    if teamId.None? || teams == [] then None
    else if teams[0].teamId == teamId.value then Some(teams[0])
    else FindTeam(teams[1..], teamId)
  }

  /** `playerList.firstOrNull { it.id == slot.playerId }` */
  function SlotPlayer(players: seq<Player>, playerId: Option<int>): Option<Player>
  {
    if playerId.None? then None else FindPlayer(players, playerId.value)
  }

  /** `indexOfLast { it.slotId == activeSlot }` */
  function IndexOfLast(slots: seq<Slot>, slotId: int): (k: int)
    ensures -1 <= k < |slots|
    ensures k >= 0 ==> slots[k].slotId == slotId && forall j :: k < j < |slots| ==> slots[j].slotId != slotId
    ensures k == -1 ==> forall j :: 0 <= j < |slots| ==> slots[j].slotId != slotId
  {
    if slots == [] then -1
    else if slots[|slots| - 1].slotId == slotId then |slots| - 1
    else IndexOfLast(slots[..|slots| - 1], slotId)
  }

  /** Where the on-deck search starts: the last active slot, or the front. */
  function RotationStart(slots: seq<Slot>, activeSlot: int): int
  {
    var k := IndexOfLast(slots, activeSlot);
    if k < 0 then 0 else k
  }

  /** The slots from the search start to the end, then from the front. */
  function Rotation(slots: seq<Slot>, activeSlot: int): (r: seq<Slot>)
    ensures |r| == |slots|
    ensures slots != [] && (exists i :: 0 <= i < |slots| && slots[i].slotId == activeSlot) ==> r[0].slotId == activeSlot
  {
    var k := RotationStart(slots, activeSlot);
    slots[k..] + slots[..k]
  }

  /** A slot can be on deck when its team exists and may be on deck, and its
      slot id is not the active one. */
  predicate CanBeOnDeck(teams: seq<Team>, slot: Slot, activeSlot: int)
  {
    var team := FindTeam(teams, slot.teamId);
    team.Some? && team.value.canBeOnDeck && slot.slotId != activeSlot
  }

  /** The index of the first slot that can be on deck, or -1. */
  function FirstOnDeck(rot: seq<Slot>, teams: seq<Team>, activeSlot: int): (d: int)
    ensures -1 <= d < |rot|
    ensures d == -1 <==> forall e :: 0 <= e < |rot| ==> !CanBeOnDeck(teams, rot[e], activeSlot)
    ensures d >= 0 ==> CanBeOnDeck(teams, rot[d], activeSlot) &&
                       forall e :: 0 <= e < d ==> !CanBeOnDeck(teams, rot[e], activeSlot)
  {
    if rot == [] then -1
    else if CanBeOnDeck(teams, rot[0], activeSlot) then 0
    else
      var d := FirstOnDeck(rot[1..], teams, activeSlot);
      if d == -1 then -1 else d + 1
  }

  /** The slot id on deck, if any. */
  function OnDeckSlot(slots: seq<Slot>, teams: seq<Team>, activeSlot: int): (r: Option<int>)
    ensures r.Some? ==> r.value != activeSlot
  {
    var rot := Rotation(slots, activeSlot);
    var d := FirstOnDeck(rot, teams, activeSlot);
    if d == -1 then None else Some(rot[d].slotId)
  }

  /** The row shown for one slot. */
  function Entry(slot: Slot, teams: seq<Team>, players: seq<Player>, activeSlot: int, onDeck: Option<int>): TurnSlot
  {
    var player := SlotPlayer(players, slot.playerId);
    TurnSlot(slot.slotId, slot.name,
             if player.Some? then ToColor(player.value.color) else slot.color,
             player, FindTeam(teams, slot.teamId),
             activeSlot == slot.slotId, onDeck == Some(slot.slotId), slot.initiativeValue)
  }

  /** `turnList` */
  function TurnList(slots: seq<Slot>, teams: seq<Team>, players: seq<Player>, activeSlot: int): (r: seq<TurnSlot>)
    ensures |r| == |slots|
    ensures forall i :: 0 <= i < |r| ==> r[i].slotId == slots[i].slotId && r[i].initiativeValue == slots[i].initiativeValue
  {
    var onDeck := OnDeckSlot(slots, teams, activeSlot);
    seq(|slots|, i requires 0 <= i < |slots| => Entry(slots[i], teams, players, activeSlot, onDeck))
  }

  /** Offset `d` from `k`, wrapping past the end of a list of length `n`. */
  function Wrap(k: int, d: int, n: int): int
  {
    if k + d < n then k + d else k + d - n
  }

  /** The rotation holds every slot once: its `d`-th slot is the slot `d`
      places after the start, wrapping to the front. */
  lemma RotationIndex(slots: seq<Slot>, activeSlot: int)
    ensures |Rotation(slots, activeSlot)| == |slots|
    ensures var k := RotationStart(slots, activeSlot);
            forall d :: 0 <= d < |slots| ==>
              0 <= Wrap(k, d, |slots|) < |slots| && Rotation(slots, activeSlot)[d] == slots[Wrap(k, d, |slots|)]
  {
  }

  /** The on-deck slot id is that of the first slot, searching from the last
      active slot (or the front when no slot is active) and wrapping, whose team
      may be on deck and which is not active; there is none exactly when no slot
      qualifies. */
  lemma OnDeckSpec(slots: seq<Slot>, teams: seq<Team>, activeSlot: int)
    ensures OnDeckSlot(slots, teams, activeSlot).None? <==>
            forall i :: 0 <= i < |slots| ==> !CanBeOnDeck(teams, slots[i], activeSlot)
    ensures var k, n := RotationStart(slots, activeSlot), |slots|;
            var d := FirstOnDeck(Rotation(slots, activeSlot), teams, activeSlot);
            d >= 0 ==> CanBeOnDeck(teams, slots[Wrap(k, d, n)], activeSlot) &&
                       OnDeckSlot(slots, teams, activeSlot) == Some(slots[Wrap(k, d, n)].slotId) &&
                       forall e :: 0 <= e < d ==> !CanBeOnDeck(teams, slots[Wrap(k, e, n)], activeSlot)
  {
    var rot := Rotation(slots, activeSlot);
    var k, n := RotationStart(slots, activeSlot), |slots|;
    RotationIndex(slots, activeSlot);
    if forall e :: 0 <= e < n ==> !CanBeOnDeck(teams, rot[e], activeSlot) {
      forall i | 0 <= i < n ensures !CanBeOnDeck(teams, slots[i], activeSlot) {
        var d := if i >= k then i - k else i + n - k;
        assert rot[d] == slots[i];
      }
    }
  }

  /** One row per slot, in slot order, with the slot's id, name and initiative;
      a row is active exactly when its slot id is the active one, on deck
      exactly when its slot id is the on-deck one, and never both; its colour
      is the linked active player's, or the slot's own. */
  lemma TurnListSpec(slots: seq<Slot>, teams: seq<Team>, players: seq<Player>, activeSlot: int)
    ensures var r := TurnList(slots, teams, players, activeSlot);
            |r| == |slots| &&
            forall i :: 0 <= i < |slots| ==>
              r[i].slotId == slots[i].slotId && r[i].name == slots[i].name &&
              r[i].initiativeValue == slots[i].initiativeValue &&
              (r[i].active <==> slots[i].slotId == activeSlot) &&
              (r[i].onDeck <==> OnDeckSlot(slots, teams, activeSlot) == Some(slots[i].slotId)) &&
              !(r[i].active && r[i].onDeck) &&
              r[i].color == (if SlotPlayer(players, slots[i].playerId).Some?
                             then FromLed(SlotPlayer(players, slots[i].playerId).value.color)
                             else slots[i].color)
  {
    var rot := Rotation(slots, activeSlot);
    var d := FirstOnDeck(rot, teams, activeSlot);
    if d >= 0 {
      assert rot[d].slotId != activeSlot;
    }
  }

  /** The search stops at the first slot that can be on deck. */
  lemma FirstOnDeckAt(rot: seq<Slot>, teams: seq<Team>, activeSlot: int, d: int)
    requires 0 <= d < |rot| && CanBeOnDeck(teams, rot[d], activeSlot)
    requires forall e :: 0 <= e < d ==> !CanBeOnDeck(teams, rot[e], activeSlot)
    ensures FirstOnDeck(rot, teams, activeSlot) == d
  {
  }

  /** The slot and team ids of the stored slots, in order. */
  lemma DefaultSlotIds()
    ensures var s := DefaultSlots();
            |s| == 7 &&
            s[0].slotId == 0 && s[1].slotId == 0 && s[2].slotId == 1 && s[3].slotId == 2 &&
            s[4].slotId == 2 && s[5].slotId == 3 && s[6].slotId == 4 &&
            s[0].teamId == Some(0) && s[1].teamId == Some(0) && s[2].teamId == Some(1) && s[3].teamId == Some(0) &&
            s[4].teamId == Some(0) && s[5].teamId == Some(1) && s[6].teamId == Some(2)
  {
  }

  /** Of the stored teams only the players' team may be on deck. */
  lemma DefaultTeamsOnDeck(teamId: int)
    ensures FindTeam(DefaultTeams(), Some(teamId)).Some? && FindTeam(DefaultTeams(), Some(teamId)).value.canBeOnDeck
            <==> teamId == 0
  {
    var t := DefaultTeams();
    assert t[0].teamId == 0 && t[1].teamId == 1 && t[2].teamId == 2;
  }

  /** With the stored slots and slot id 0 active, the search starts at the
      last slot with id 0 and passes over the enemy: "Character 2" (slot id 2)
      is on deck. */
  lemma DefaultOnDeckFirst()
    ensures OnDeckSlot(DefaultSlots(), DefaultTeams(), 0) == Some(2)
  {
    var s, t := DefaultSlots(), DefaultTeams();
    DefaultSlotIds();
    DefaultTeamsOnDeck(0);
    DefaultTeamsOnDeck(1);
    assert IndexOfLast(s, 0) == 1;
    var rot := Rotation(s, 0);
    assert rot[0] == s[1] && rot[1] == s[2] && rot[2] == s[3];
    assert !CanBeOnDeck(t, rot[0], 0) && !CanBeOnDeck(t, rot[1], 0) && CanBeOnDeck(t, rot[2], 0);
    assert FirstOnDeck(rot, t, 0) == 2;
  }

  /** With slot id 2 active the search runs past the last slot and wraps to
      the front: slot id 0 is on deck. */
  lemma DefaultOnDeckWraps()
    ensures OnDeckSlot(DefaultSlots(), DefaultTeams(), 2) == Some(0)
  {
    var s, t := DefaultSlots(), DefaultTeams();
    DefaultSlotIds();
    DefaultTeamsOnDeck(0);
    DefaultTeamsOnDeck(1);
    DefaultTeamsOnDeck(2);
    assert IndexOfLast(s, 2) == 4;
    var rot := Rotation(s, 2);
    RotationIndex(s, 2);
    assert Wrap(4, 3, 7) == 0;
    assert !CanBeOnDeck(t, rot[0], 2) && !CanBeOnDeck(t, rot[1], 2) && !CanBeOnDeck(t, rot[2], 2);
    assert CanBeOnDeck(t, rot[3], 2);
    FirstOnDeckAt(rot, t, 2, 3);
  }

  class TurnRepository {
    /** `_activeSlot` */
    var activeSlot: int
    /** `_slotList` */
    var slots: seq<Slot>
    /** `_teamList` */
    var teams: seq<Team>

    constructor ()
      ensures activeSlot == 0 && slots == DefaultSlots() && teams == DefaultTeams()
    {
      activeSlot := 0;
      slots := DefaultSlots();
      teams := DefaultTeams();
    }

    /** `turnList`, for the given active players. */
    function Shown(players: seq<Player>): seq<TurnSlot>
      reads this
    {
      TurnList(slots, teams, players, activeSlot)
    }

    /** `resetActive` */
    method ResetActive()
      modifies this
      ensures activeSlot == 0 && slots == old(slots) && teams == old(teams)
    {
      activeSlot := 0;
    }

    /** `setNextActive`: one more, with no wrap-around and no bound. */
    method SetNextActive()
      modifies this
      ensures activeSlot == old(activeSlot) + 1 && slots == old(slots) && teams == old(teams)
    {
      activeSlot := activeSlot + 1;
    }
  }
}
