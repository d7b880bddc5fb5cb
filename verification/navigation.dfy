/** `NavListBuilder`: the navigation targets declared group by group, each
    numbered as it is added, one of them marked as the default, and the list
    grouped by group name for the navigation bar. Icons and screens are
    interface values and are not modelled. */
module Navigation {
  import opened Common
  import opened Seqs

  /** `NavTarget`, without its icon and screen. */
  datatype NavTarget = NavTarget(id: int, title: string, groupName: string)

  /** What one `target { … }` block declares inside `group(groupName) { … }`. */
  datatype TargetDef = TargetDef(title: string, groupName: string, isDefaultTarget: bool)

  /** One entry of `targetList`: a group name and its targets. */
  datatype Group = Group(name: string, targets: seq<NavTarget>)

  /** The target list the builder produces: target `i` gets id `i`. */
  function Targets(defs: seq<TargetDef>): (r: seq<NavTarget>)
    ensures |r| == |defs|
  {
    seq(|defs|, i requires 0 <= i < |defs| => NavTarget(i, defs[i].title, defs[i].groupName))
  }

  /** `_defaultTarget` after the builder ran: the last target added with
      `isDefaultTarget`, if any. */
  function LastFlagged(defs: seq<TargetDef>): (r: Option<NavTarget>)
    ensures r.Some? ==> 0 <= r.value.id < |defs| && defs[r.value.id].isDefaultTarget &&
                        r.value == Targets(defs)[r.value.id]
    ensures r.Some? ==> forall j :: r.value.id < j < |defs| ==> !defs[j].isDefaultTarget
  {
    if defs == [] then None
    else if defs[|defs| - 1].isDefaultTarget then
      Some(NavTarget(|defs| - 1, defs[|defs| - 1].title, defs[|defs| - 1].groupName))
    else LastFlagged(defs[..|defs| - 1])
  }

  /** `defaultTarget`: the flagged target, else the first; none for an empty
      list, where the getter fails. */
  function DefaultOf(defs: seq<TargetDef>): (r: Option<NavTarget>)
    ensures r.None? <==> defs == []
    ensures r.Some? ==> 0 <= r.value.id < |defs| && r.value == Targets(defs)[r.value.id]
  {
    var flagged := LastFlagged(defs);
    if flagged.Some? then flagged
    else if defs == [] then None
    else Some(Targets(defs)[0])
  }

  /** Dropping the last declaration keeps every earlier target as it was. */
  lemma TargetsPrefix(defs: seq<TargetDef>, n: int)
    requires 0 <= n <= |defs|
    ensures forall i :: 0 <= i < n ==> Targets(defs[..n])[i] == Targets(defs)[i]
  {
  }

  lemma {:induction false} LastFlaggedNone(defs: seq<TargetDef>)
    ensures LastFlagged(defs).None? <==> forall i :: 0 <= i < |defs| ==> !defs[i].isDefaultTarget
  {
    if defs != [] {
      var n := |defs| - 1;
      LastFlaggedNone(defs[..n]);
      assert forall i :: 0 <= i < n ==> defs[..n][i] == defs[i];
    }
  }

  lemma {:induction false} LastFlaggedMember(defs: seq<TargetDef>)
    ensures LastFlagged(defs).Some? ==> LastFlagged(defs).value in Targets(defs)
  {
    if defs != [] {
      var n := |defs| - 1;
      if defs[n].isDefaultTarget {
        assert LastFlagged(defs).value == Targets(defs)[n];
      } else {
        LastFlaggedMember(defs[..n]);
        TargetsPrefix(defs, n);
        if LastFlagged(defs[..n]).Some? {
          var i :| 0 <= i < n && Targets(defs[..n])[i] == LastFlagged(defs[..n]).value;
          assert LastFlagged(defs).value == Targets(defs)[i];
        }
      }
    }
  }

  lemma {:induction false} LastFlaggedLast(defs: seq<TargetDef>, i: int)
    requires 0 <= i < |defs| && defs[i].isDefaultTarget
    requires forall j :: i < j < |defs| ==> !defs[j].isDefaultTarget
    ensures LastFlagged(defs) == Some(Targets(defs)[i])
  {
    var n := |defs| - 1;
    if i < n {
      LastFlaggedLast(defs[..n], i);
      TargetsPrefix(defs, n);
    }
  }

  lemma LastFlaggedSpec(defs: seq<TargetDef>)
    ensures LastFlagged(defs).None? <==> forall i :: 0 <= i < |defs| ==> !defs[i].isDefaultTarget
    ensures LastFlagged(defs).Some? ==> LastFlagged(defs).value in Targets(defs)
    ensures forall i :: 0 <= i < |defs| && defs[i].isDefaultTarget &&
                        (forall j :: i < j < |defs| ==> !defs[j].isDefaultTarget) ==>
              LastFlagged(defs) == Some(Targets(defs)[i])
  {
    LastFlaggedNone(defs);
    LastFlaggedMember(defs);
    forall i | 0 <= i < |defs| && defs[i].isDefaultTarget && (forall j :: i < j < |defs| ==> !defs[j].isDefaultTarget)
      ensures LastFlagged(defs) == Some(Targets(defs)[i])
    {
      LastFlaggedLast(defs, i);
    }
  }

  /** The default is the last target declared with `isDefaultTarget`; with no
      such target it is the first target; there is none only when no target
      was declared. */
  lemma DefaultSpec(defs: seq<TargetDef>)
    ensures DefaultOf(defs).None? <==> defs == []
    ensures forall i :: 0 <= i < |defs| && defs[i].isDefaultTarget &&
                        (forall j :: i < j < |defs| ==> !defs[j].isDefaultTarget) ==>
              DefaultOf(defs) == Some(Targets(defs)[i])
    ensures defs != [] && (forall i :: 0 <= i < |defs| ==> !defs[i].isDefaultTarget) ==>
            DefaultOf(defs) == Some(Targets(defs)[0])
    ensures DefaultOf(defs).Some? ==> DefaultOf(defs).value in Targets(defs)
  {
    LastFlaggedSpec(defs);
  }

  /** Target ids are their positions, so no two targets are equal. */
  lemma TargetsDupFree(defs: seq<TargetDef>)
    ensures forall i :: 0 <= i < |defs| ==> Targets(defs)[i].id == i
    ensures DupFree(Targets(defs))
  {
  }

  function Names(gs: seq<Group>): (r: seq<string>)
    ensures |r| == |gs|
  {
    seq(|gs|, k requires 0 <= k < |gs| => gs[k].name)
  }

  /** The position of the group called `name`, or -1. */
  function GroupIndex(gs: seq<Group>, name: string): (k: int)
    ensures -1 <= k < |gs|
    ensures k == -1 <==> forall j :: 0 <= j < |gs| ==> gs[j].name != name
    ensures k >= 0 ==> gs[k].name == name
  {
    if gs == [] then -1
    else if gs[|gs| - 1].name == name then |gs| - 1
    else GroupIndex(gs[..|gs| - 1], name)
  }

  /** `groupBy` taking one more target: it joins the end of its group, or
      opens a new group at the end. */
  function AddToGroup(gs: seq<Group>, t: NavTarget): (r: seq<Group>)
  {
    var k := GroupIndex(gs, t.groupName);
    if k == -1 then gs + [Group(t.groupName, [t])]
    else gs[k := Group(t.groupName, gs[k].targets + [t])]
  }

  /** `targetList`: `groupBy { it.groupName }`. */
  function GroupBy(ts: seq<NavTarget>): (r: seq<Group>)
    ensures |r| <= |ts|
    ensures r == [] <==> ts == []
  {
    if ts == [] then [] else AddToGroup(GroupBy(ts[..|ts| - 1]), ts[|ts| - 1])
  }

  /** The filter that keeps one group's targets. */
  function InGroup(name: string): NavTarget -> bool
  {
    (t: NavTarget) => t.groupName == name
  }

  /** The position of the first target of group `name`, or `|ts|`. */
  function FirstOfGroup(ts: seq<NavTarget>, name: string): (k: nat)
    ensures k <= |ts|
    ensures k < |ts| ==> ts[k].groupName == name
    ensures forall j :: 0 <= j < k ==> ts[j].groupName != name
  {
    if ts == [] then 0
    else if ts[0].groupName == name then 0
    else 1 + FirstOfGroup(ts[1..], name)
  }

  lemma FirstOfGroupPrefix(ts: seq<NavTarget>, name: string, t: NavTarget)
    ensures FirstOfGroup(ts, name) < |ts| ==> FirstOfGroup(ts + [t], name) == FirstOfGroup(ts, name)
    ensures FirstOfGroup(ts, name) == |ts| && t.groupName == name ==> FirstOfGroup(ts + [t], name) == |ts|
  {
    var a := FirstOfGroup(ts, name);
    var b := FirstOfGroup(ts + [t], name);
    if a < |ts| {
      assert (ts + [t])[a] == ts[a];
    }
    if a == |ts| && t.groupName == name {
      assert (ts + [t])[|ts|] == t;
    }
  }

  lemma FilterSnoc(ts: seq<NavTarget>, t: NavTarget, p: NavTarget -> bool)
    ensures Filter(ts + [t], p) == Filter(ts, p) + (if p(t) then [t] else [])
  {
    FilterAppend(ts, [t], p);
    assert Filter([t], p) == (if p(t) then [t] else []) by {
      assert [t][1..] == [];
    }
  }

  /** No group name twice. */
  predicate NamesDistinct(gs: seq<Group>)
  {
    DupFree(Names(gs))
  }

  /** Each group holds exactly its targets, in list order. */
  ghost predicate GroupsFiltered(ts: seq<NavTarget>, gs: seq<Group>)
  {
    forall k :: 0 <= k < |gs| ==> gs[k].targets == Filter(ts, InGroup(gs[k].name))
  }

  /** Every group name is the name of some target. */
  predicate NamesOccur(ts: seq<NavTarget>, gs: seq<Group>)
  {
    forall k :: 0 <= k < |gs| ==> FirstOfGroup(ts, gs[k].name) < |ts|
  }

  /** Every target's group is present. */
  predicate AllGrouped(ts: seq<NavTarget>, gs: seq<Group>)
  {
    forall i :: 0 <= i < |ts| ==> ts[i].groupName in Names(gs)
  }

  /** The groups come in the order their first targets do. */
  predicate InFirstOrder(ts: seq<NavTarget>, gs: seq<Group>)
  {
    forall k1, k2 :: 0 <= k1 < k2 < |gs| ==> FirstOfGroup(ts, gs[k1].name) < FirstOfGroup(ts, gs[k2].name)
  }

  lemma AddNames(gs: seq<Group>, t: NavTarget)
    ensures GroupIndex(gs, t.groupName) == -1 ==> Names(AddToGroup(gs, t)) == Names(gs) + [t.groupName]
    ensures GroupIndex(gs, t.groupName) >= 0 ==> Names(AddToGroup(gs, t)) == Names(gs)
  {
    var k0 := GroupIndex(gs, t.groupName);
    var r := AddToGroup(gs, t);
    if k0 >= 0 {
      assert forall k :: 0 <= k < |r| ==> Names(r)[k] == Names(gs)[k];
    } else {
      assert forall k :: 0 <= k < |gs| ==> Names(r)[k] == Names(gs)[k];
    }
  }

  lemma AddDistinct(gs: seq<Group>, t: NavTarget)
    requires NamesDistinct(gs)
    ensures NamesDistinct(AddToGroup(gs, t))
  {
    AddNames(gs, t);
  }

  /** A name without a group is the name of no target so far. */
  lemma NewNameUnused(ts: seq<NavTarget>, gs: seq<Group>, name: string)
    requires AllGrouped(ts, gs) && GroupIndex(gs, name) == -1
    ensures forall i :: 0 <= i < |ts| ==> ts[i].groupName != name
    ensures FirstOfGroup(ts, name) == |ts|
  {
  }

  lemma AddFiltered(ts: seq<NavTarget>, gs: seq<Group>, t: NavTarget)
    requires NamesDistinct(gs) && GroupsFiltered(ts, gs)
    requires GroupIndex(gs, t.groupName) == -1 ==> forall i :: 0 <= i < |ts| ==> ts[i].groupName != t.groupName
    ensures GroupsFiltered(ts + [t], AddToGroup(gs, t))
  {
    var k0 := GroupIndex(gs, t.groupName);
    var r := AddToGroup(gs, t);
    forall k | 0 <= k < |r| ensures r[k].targets == Filter(ts + [t], InGroup(r[k].name)) {
      FilterSnoc(ts, t, InGroup(r[k].name));
      if k0 == -1 && k == |gs| {
        FilterNone(ts, InGroup(t.groupName));
      } else if k != k0 && k0 >= 0 {
        assert Names(gs)[k] != Names(gs)[k0];
      }
    }
  }

  /** The groups already present keep their names and first positions. */
  lemma AddKeepsFirst(ts: seq<NavTarget>, gs: seq<Group>, t: NavTarget, k: int)
    requires NamesOccur(ts, gs) && 0 <= k < |gs|
    ensures k < |AddToGroup(gs, t)| && AddToGroup(gs, t)[k].name == gs[k].name
    ensures FirstOfGroup(ts + [t], gs[k].name) == FirstOfGroup(ts, gs[k].name)
  {
    AddNames(gs, t);
    assert Names(AddToGroup(gs, t))[k] == Names(gs)[k];
    FirstOfGroupPrefix(ts, gs[k].name, t);
  }

  lemma AddFirst(ts: seq<NavTarget>, gs: seq<Group>, t: NavTarget)
    requires NamesOccur(ts, gs) && InFirstOrder(ts, gs)
    requires GroupIndex(gs, t.groupName) == -1 ==> FirstOfGroup(ts, t.groupName) == |ts|
    ensures NamesOccur(ts + [t], AddToGroup(gs, t)) && InFirstOrder(ts + [t], AddToGroup(gs, t))
  {
    var r := AddToGroup(gs, t);
    var ts' := ts + [t];
    AddNames(gs, t);
    if GroupIndex(gs, t.groupName) == -1 {
      FirstOfGroupPrefix(ts, t.groupName, t);
      assert r[|gs|].name == t.groupName;
    }
    forall k | 0 <= k < |r| ensures FirstOfGroup(ts', r[k].name) < |ts'| {
      if k < |gs| {
        AddKeepsFirst(ts, gs, t, k);
      }
    }
    forall k1, k2 | 0 <= k1 < k2 < |r| ensures FirstOfGroup(ts', r[k1].name) < FirstOfGroup(ts', r[k2].name) {
      AddKeepsFirst(ts, gs, t, k1);
      if k2 < |gs| {
        AddKeepsFirst(ts, gs, t, k2);
      }
    }
  }

  lemma AddAll(ts: seq<NavTarget>, gs: seq<Group>, t: NavTarget)
    requires AllGrouped(ts, gs)
    ensures AllGrouped(ts + [t], AddToGroup(gs, t))
  {
    AddNames(gs, t);
    var k0 := GroupIndex(gs, t.groupName);
    if k0 >= 0 {
      assert Names(gs)[k0] == t.groupName;
    }
  }

  lemma {:induction false} GroupByGrouped(ts: seq<NavTarget>)
    ensures NamesDistinct(GroupBy(ts)) && GroupsFiltered(ts, GroupBy(ts))
    ensures NamesOccur(ts, GroupBy(ts)) && AllGrouped(ts, GroupBy(ts)) && InFirstOrder(ts, GroupBy(ts))
  {
    if ts != [] {
      var init, t := ts[..|ts| - 1], ts[|ts| - 1];
      var gs := GroupBy(init);
      GroupByGrouped(init);
      assert init + [t] == ts;
      if GroupIndex(gs, t.groupName) == -1 {
        NewNameUnused(init, gs, t.groupName);
      }
      AddDistinct(gs, t);
      AddFiltered(init, gs, t);
      AddFirst(init, gs, t);
      AddAll(init, gs, t);
    }
  }

  /** `targetList` has one entry per group name that occurs, no name twice,
      the groups in the order their first targets were declared, and each
      group's targets in declaration order. */
  lemma GroupBySpec(ts: seq<NavTarget>)
    ensures DupFree(Names(GroupBy(ts)))
    ensures forall name :: name in Names(GroupBy(ts)) <==> exists i :: 0 <= i < |ts| && ts[i].groupName == name
    ensures forall k :: 0 <= k < |GroupBy(ts)| ==>
              GroupBy(ts)[k].targets == Filter(ts, InGroup(GroupBy(ts)[k].name))
    ensures forall k1, k2 :: 0 <= k1 < k2 < |GroupBy(ts)| ==>
              FirstOfGroup(ts, GroupBy(ts)[k1].name) < FirstOfGroup(ts, GroupBy(ts)[k2].name)
  {
    var gs := GroupBy(ts);
    GroupByGrouped(ts);
    forall name ensures name in Names(gs) <==> exists i :: 0 <= i < |ts| && ts[i].groupName == name {
      if name in Names(gs) {
        var k :| 0 <= k < |gs| && Names(gs)[k] == name;
        assert ts[FirstOfGroup(ts, gs[k].name)].groupName == name;
      }
    }
  }

  lemma FilterMember(ts: seq<NavTarget>, p: NavTarget -> bool, i: int)
    requires 0 <= i < |ts|
    ensures ts[i] in Filter(ts, p) <==> p(ts[i])
  {
    if p(ts[i]) {
      FilterKeeps(ts, p, i);
    }
  }

  /** With distinct targets, every target appears in exactly one group, its
      own, and exactly once there. */
  lemma GroupedOnce(ts: seq<NavTarget>, i: int)
    requires DupFree(ts) && 0 <= i < |ts|
    ensures exists k :: 0 <= k < |GroupBy(ts)| && GroupBy(ts)[k].name == ts[i].groupName
    ensures forall k :: 0 <= k < |GroupBy(ts)| ==>
              (ts[i] in GroupBy(ts)[k].targets <==> GroupBy(ts)[k].name == ts[i].groupName)
    ensures forall k :: 0 <= k < |GroupBy(ts)| ==> DupFree(GroupBy(ts)[k].targets)
  {
    var gs := GroupBy(ts);
    GroupByGrouped(ts);
    assert ts[i].groupName in Names(gs);
    var k0 :| 0 <= k0 < |gs| && Names(gs)[k0] == ts[i].groupName;
    assert gs[k0].name == ts[i].groupName;
    forall k | 0 <= k < |gs|
      ensures (ts[i] in gs[k].targets <==> gs[k].name == ts[i].groupName) && DupFree(gs[k].targets)
    {
      FilterMember(ts, InGroup(gs[k].name), i);
      FilterDupFree(ts, InGroup(gs[k].name));
      assert gs[k].targets == Filter(ts, InGroup(gs[k].name));
    }
  }

  /** Grouping one more target adds its group name at the end when it is new,
      and leaves the names as they were otherwise. */
  lemma GroupByStep(ts: seq<NavTarget>, k: int)
    requires 0 <= k < |ts|
    ensures Names(GroupBy(ts[..k + 1])) ==
            if ts[k].groupName in Names(GroupBy(ts[..k])) then Names(GroupBy(ts[..k]))
            else Names(GroupBy(ts[..k])) + [ts[k].groupName]
  {
    assert ts[..k + 1][..k] == ts[..k];
    var gs := GroupBy(ts[..k]);
    assert GroupBy(ts[..k + 1]) == AddToGroup(gs, ts[k]);
    AddNames(gs, ts[k]);
    if ts[k].groupName in Names(gs) {
      var j :| 0 <= j < |gs| && Names(gs)[j] == ts[k].groupName;
      assert gs[j].name == ts[k].groupName;
    } else {
      forall j | 0 <= j < |gs| ensures gs[j].name != ts[k].groupName {
        assert Names(gs)[j] == gs[j].name;
      }
      assert GroupIndex(gs, ts[k].groupName) == -1;
    }
  }

  /** The application's navigation list (`NavTargetList`). */
  function AppDefs(): seq<TargetDef>
  {
    [TargetDef("Status", "Status", true),
     TargetDef("Players", "Setup", false), TargetDef("Table", "Setup", false),
     TargetDef("Timer", "Screens", false), TargetDef("Health", "Screens", false),
     TargetDef("Turn", "Screens", false), TargetDef("Effects", "Screens", false),
     TargetDef("Settings", "Settings", false)]
  }

  /** The application opens on the status screen. */
  lemma AppDefault()
    ensures DefaultOf(AppDefs()) == Some(NavTarget(0, "Status", "Status"))
  {
    var defs := AppDefs();
    DefaultSpec(defs);
    assert defs[0].isDefaultTarget && forall j :: 0 < j < |defs| ==> !defs[j].isDefaultTarget;
  }

  class NavListBuilder {
    /** `_targetList` */
    var targetList: seq<NavTarget>
    /** `_defaultTarget` */
    var defaultTarget: Option<NavTarget>

    /** `init`: runs the declarations in order, adding each target. */
    constructor (defs: seq<TargetDef>)
      ensures targetList == Targets(defs) && defaultTarget == LastFlagged(defs)
      ensures Default() == DefaultOf(defs) && Groups() == GroupBy(Targets(defs))
    {
      targetList := [];
      defaultTarget := None;
      new;
      var i := 0;
      while i < |defs|
        invariant 0 <= i <= |defs|
        invariant targetList == Targets(defs[..i]) && defaultTarget == LastFlagged(defs[..i])
      {
        assert defs[..i + 1][..i] == defs[..i];
        AddTarget(defs[i].title, defs[i].groupName, defs[i].isDefaultTarget);
        assert Targets(defs[..i + 1]) == Targets(defs[..i]) + [NavTarget(i, defs[i].title, defs[i].groupName)];
        i := i + 1;
      }
      assert defs[..|defs|] == defs;
    }

    /** The callback handed to the builder scope: the new target's id is the
        number of targets added so far. */
    method AddTarget(title: string, groupName: string, isDefaultTarget: bool)
      modifies this
      ensures targetList == old(targetList) + [NavTarget(|old(targetList)|, title, groupName)]
      ensures defaultTarget == if isDefaultTarget then Some(NavTarget(|old(targetList)|, title, groupName))
                               else old(defaultTarget)
    {
      var target := NavTarget(|targetList|, title, groupName);
      targetList := targetList + [target];
      if isDefaultTarget {
        defaultTarget := Some(target);
      }
    }

    /** `targetList` */
    function Groups(): seq<Group>
      reads this
    {
      GroupBy(targetList)
    }

    /** `defaultTarget`, or none where the getter would fail. */
    function Default(): Option<NavTarget>
      reads this
    {
      if defaultTarget.Some? then defaultTarget
      else if targetList == [] then None
      else Some(targetList[0])
    }
  }
}
