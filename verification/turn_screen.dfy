/** `TurnList` on the turn screen: choosing a row to move and the row to move
    it to, and the row buttons that pick the active player. */
module TurnScreen {
  import opened Common
  import opened Turns
  import opened TurnControl

  datatype ReorderItemState = Default | ReorderActive | AboveTarget | BelowTarget

  /** The state of row `i` while `target` is the row being moved. */
  function RowState(target: Option<int>, i: int): (r: ReorderItemState)
    ensures r == ReorderActive ==> target == Some(i)
    ensures target.Some? && r != ReorderActive ==> (r == AboveTarget <==> i < target.value)
  {
    if target.None? then Default
    else if target.value == i then ReorderActive
    else if target.value > i then AboveTarget
    else BelowTarget
  }

  /** Without a target every row is in its default state; with target `t`,
      row `t` is the one being moved and the rows before and after it are above
      and below the target. */
  lemma RowStateSpec(target: Option<int>, i: int)
    ensures RowState(target, i) == Default <==> target.None?
    ensures RowState(target, i) == ReorderActive <==> target == Some(i)
    ensures RowState(target, i) == AboveTarget <==> target.Some? && i < target.value
    ensures RowState(target, i) == BelowTarget <==> target.Some? && i > target.value
  {
  }

  /** The new target after the reorder button of row `i` is clicked, and the
      move it requests, if any. */
  datatype Click = Click(target: Option<int>, move: Option<(int, int)>)

  function ReorderClick(target: Option<int>, i: int): (r: Click)
    ensures r.target.Some? ==> r.target == Some(i) && target.None?
    ensures r.move.Some? ==> r.target.None? && r.move.value.1 == i && r.move.value.0 != i
  {
    match RowState(target, i)
    case AboveTarget => Click(None, Some((target.value, i)))
    case BelowTarget => Click(None, Some((target.value, i)))
    case ReorderActive => Click(None, None)
    case Default => Click(Some(i), None)
  }

  /** A click without a target selects the row; a click on the selected row
      deselects it; a click on any other row moves the selected row there, and
      either way leaves no row selected. */
  lemma ReorderClickSpec(target: Option<int>, i: int)
    ensures target.None? ==> ReorderClick(target, i) == Click(Some(i), None)
    ensures target == Some(i) ==> ReorderClick(target, i) == Click(None, None)
    ensures target.Some? && target.value != i ==> ReorderClick(target, i) == Click(None, Some((target.value, i)))
  {
  }

  /** From no selection, clicking row `a` then row `b` requests exactly one
      move, from `a` to `b`, when the rows differ, and none when they are the
      same; either way no row is left selected. */
  lemma TwoClicks(a: int, b: int)
    ensures var first := ReorderClick(None, a);
            var second := ReorderClick(first.target, b);
            first.move.None? && second.target.None? &&
            second.move == if a == b then None else Some((a, b))
  {
    ReorderClickSpec(None, a);
    ReorderClickSpec(Some(a), b);
  }

  class TurnList {
    /** The row chosen to be moved, if any. */
    var editTarget: Option<int>

    constructor ()
      ensures editTarget.None?
    {
      editTarget := None;
    }

    /** `onReorderClicked` for row `i`: returns the move passed to `onMovePlayer`, if any. */
    method OnReorderClicked(i: int) returns (move: Option<(int, int)>)
      modifies this
      ensures Click(editTarget, move) == ReorderClick(old(editTarget), i)
    {
      var target := editTarget;
      var state := RowState(target, i);
      move := None;
      match state {
        case AboveTarget =>
          move := Some((target.value, i));
          editTarget := None;
        case BelowTarget =>
          move := Some((target.value, i));
          editTarget := None;
        case ReorderActive =>
          editTarget := None;
        case Default =>
          editTarget := Some(i);
      }
    }

    /** The row's own click: its player is toggled active. */
    method OnRowClicked(vm: TurnViewModel, players: seq<Player>, list: seq<Player>, i: int)
      requires 0 <= i < |list|
      modifies vm.turnModule
      ensures vm.turnModule.activePlayerId == Toggle(FindPlayer(players, old(vm.turnModule.activePlayerId)), list[i].id)
      ensures vm.turnModule.playerOrder == old(vm.turnModule.playerOrder)
      ensures vm.turnModule.run == old(vm.turnModule.run)
    {
      vm.SetPlayerActive(players, list[i].id);
    }

    /** The row's shuffle button: a pseudo-random run ending on its player. */
    method OnShuffleClicked(vm: TurnViewModel, players: seq<Player>, chunks: map<Player, seq<seq<int>>>,
                            list: seq<Player>, i: int)
      requires 0 <= i < |list|
      modifies vm.turnModule
      ensures vm.turnModule.activePlayerId == 0
      ensures vm.turnModule.run == PseudoRandomRun(PlayerList(players, old(vm.turnModule.playerOrder)), chunks,
                                                   vm.turnModule.ledCount, list[i].id, vm.randomAnimType)
      ensures vm.turnModule.playerOrder == old(vm.turnModule.playerOrder)
    {
      vm.SetPseudoRandomActive(players, chunks, list[i].id);
    }
  }
}
