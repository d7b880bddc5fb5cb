/** `SettingsViewModel`: the settings screen's actions on the module
    configuration. Moving a module renumbers the priorities of the whole
    displayed list after their new positions. */
module Settings {
  import opened Common
  import opened Seqs
  import opened ModuleConfigs
  import opened Controller

  /** `indexOfFirst { it.id == moduleId }`: the first index holding that id, or -1. */
  function IndexOfModule(list: seq<ModuleConfig>, moduleId: string): (k: int)
    ensures -1 <= k < |list|
    ensures k == -1 <==> forall i :: 0 <= i < |list| ==> list[i].id != moduleId
    ensures k >= 0 ==> list[k].id == moduleId && forall j :: 0 <= j < k ==> list[j].id != moduleId
  {
    if list == [] then -1
    else if list[0].id == moduleId then 0
    else
      var k := IndexOfModule(list[1..], moduleId);
      if k == -1 then -1 else k + 1
  }

  /** `mapIndexed { i, module -> module.id to i }.toMap()`: each id to its
      position; a later position wins over an earlier one with the same id. */
  function PriorityMap(order: seq<ModuleConfig>): (r: map<string, int>)
    ensures forall id :: id in r ==> 0 <= r[id] < |order|
  {
    if order == [] then map[]
    else PriorityMap(order[..|order| - 1])[order[|order| - 1].id := |order| - 1]
  }

  lemma {:induction false} PriorityMapKeys(order: seq<ModuleConfig>)
    ensures PriorityMap(order).Keys == Ids(order)
  {
    if order != [] {
      var n := |order| - 1;
      PriorityMapKeys(order[..n]);
      IdsAppend(order[..n], order[n]);
      assert order == order[..n] + [order[n]];
    }
  }

  /** Every value of the map is a position holding its key. */
  lemma {:induction false} PriorityMapPositions(order: seq<ModuleConfig>)
    ensures forall id :: id in PriorityMap(order) ==>
              0 <= PriorityMap(order)[id] < |order| && order[PriorityMap(order)[id]].id == id
  {
    if order != [] {
      var n := |order| - 1;
      var init := order[..n];
      PriorityMapPositions(init);
      var pm0 := PriorityMap(init);
      forall id | id in pm0 && id != order[n].id
        ensures 0 <= pm0[id] < |order| && order[pm0[id]].id == id
      {
        assert order[pm0[id]] == init[pm0[id]];
      }
    }
  }

  /** With unique ids, each module's id is sent to its own position. */
  lemma {:induction false} PriorityMapAt(order: seq<ModuleConfig>)
    requires UniqueIds(order)
    ensures forall i :: 0 <= i < |order| ==> order[i].id in PriorityMap(order) && PriorityMap(order)[order[i].id] == i
  {
    if order != [] {
      var n := |order| - 1;
      var init := order[..n];
      assert UniqueIds(init);
      PriorityMapAt(init);
      forall i | 0 <= i < n
        ensures order[i].id in PriorityMap(order) && PriorityMap(order)[order[i].id] == i
      {
        assert order[i] == init[i];
        assert order[i].id != order[n].id;
      }
    }
  }

  /** With unique ids, the priority map sends each id to its position and back:
      the new priorities are exactly `0 .. n-1`, one per module. */
  lemma PriorityMapSpec(order: seq<ModuleConfig>)
    requires UniqueIds(order)
    ensures PriorityMap(order).Keys == Ids(order)
    ensures forall i :: 0 <= i < |order| ==> PriorityMap(order)[order[i].id] == i
    ensures forall id :: id in PriorityMap(order) ==>
              0 <= PriorityMap(order)[id] < |order| && order[PriorityMap(order)[id]].id == id
  {
    PriorityMapKeys(order);
    PriorityMapPositions(order);
    PriorityMapAt(order);
  }

  /** The list `moveModule` writes back, or `None` where the program fails with
      an index error: no module has the id (`removeAt(-1)`), or the new index
      lies outside the list once the module is taken out (`add`). */
  function MovedOrder(list: seq<ModuleConfig>, moduleId: string, newIndex: int): (r: Option<seq<ModuleConfig>>)
    ensures r.Some? ==> 0 <= newIndex < |list| == |r.value| && r.value[newIndex].id == moduleId
  {
    var k := IndexOfModule(list, moduleId);
    if k == -1 || newIndex < 0 || newIndex >= |list| then None
    else Some(Move(list, k, newIndex))
  }

  /** When a move fails, and when it succeeds, what it produces: the moved
      module at its new index, the same modules, and the others in their old
      relative order. */
  lemma MovedOrderSpec(list: seq<ModuleConfig>, moduleId: string, newIndex: int)
    ensures MovedOrder(list, moduleId, newIndex).None? <==>
              (forall i :: 0 <= i < |list| ==> list[i].id != moduleId) || newIndex < 0 || newIndex >= |list|
    ensures MovedOrder(list, moduleId, newIndex).Some? ==>
              var order := MovedOrder(list, moduleId, newIndex).value;
              var k := IndexOfModule(list, moduleId);
              |order| == |list| && order[newIndex] == list[k] && order[newIndex].id == moduleId &&
              multiset(order) == multiset(list) &&
              RemoveAt(order, newIndex) == RemoveAt(list, k)
  {
    if MovedOrder(list, moduleId, newIndex).Some? {
      MoveSpec(list, IndexOfModule(list, moduleId), newIndex);
    }
  }

  /** The priorities a successful move writes: every module of the list gets
      one, the moved module gets `newIndex`, each priority names the position
      of its module, and any two other modules keep their old order. */
  lemma MoveModulePriorities(list: seq<ModuleConfig>, moduleId: string, newIndex: int)
    requires UniqueIds(list)
    requires MovedOrder(list, moduleId, newIndex).Some?
    ensures var order := MovedOrder(list, moduleId, newIndex).value;
            var pm := PriorityMap(order);
            pm.Keys == Ids(list) && moduleId in pm && pm[moduleId] == newIndex &&
            (forall id :: id in pm ==> 0 <= pm[id] < |order| && order[pm[id]].id == id) &&
            forall i, j :: 0 <= i < |list| && 0 <= j < |list| &&
                           list[i].id != moduleId && list[j].id != moduleId ==>
                           (pm[list[i].id] < pm[list[j].id] <==> i < j)
  {
    var k := IndexOfModule(list, moduleId);
    var order := Move(list, k, newIndex);
    assert MovedOrder(list, moduleId, newIndex).value == order;
    assert list[k].id == moduleId;
    MovePriorities(list, k, newIndex);
    var pm := PriorityMap(order);
    forall i, j | 0 <= i < |list| && 0 <= j < |list| && list[i].id != moduleId && list[j].id != moduleId
      ensures pm[list[i].id] < pm[list[j].id] <==> i < j
    {
      assert i != k && j != k;
      assert pm[list[i].id] == MoveTarget(k, newIndex, i) && pm[list[j].id] == MoveTarget(k, newIndex, j);
      MoveTargetOrder(k, newIndex, i, j);
    }
  }

  /** `MoveModulePriorities` for the module at index `k`. */
  lemma MovePriorities(list: seq<ModuleConfig>, k: int, newIndex: int)
    requires UniqueIds(list) && 0 <= k < |list| && 0 <= newIndex < |list|
    ensures PriorityMap(Move(list, k, newIndex)).Keys == Ids(list)
    ensures PriorityMap(Move(list, k, newIndex))[list[k].id] == newIndex
    ensures forall id :: id in PriorityMap(Move(list, k, newIndex)) ==>
              0 <= PriorityMap(Move(list, k, newIndex))[id] < |list| &&
              Move(list, k, newIndex)[PriorityMap(Move(list, k, newIndex))[id]].id == id
    ensures forall i :: 0 <= i < |list| ==> PriorityMap(Move(list, k, newIndex))[list[i].id] == MoveTarget(k, newIndex, i)
  {
    var order := Move(list, k, newIndex);
    MovedModules(list, k, newIndex);
    PriorityMapSpec(order);
    var pm := PriorityMap(order);
    assert pm[order[newIndex].id] == newIndex;
    MoveTargetSpec(list, k, newIndex);
    forall i | 0 <= i < |list| ensures pm[list[i].id] == MoveTarget(k, newIndex, i) {
      assert order[MoveTarget(k, newIndex, i)] == list[i];
    }
  }

  /** A move keeps the ids unique and the same, and puts the moved module at its new index. */
  lemma MovedModules(list: seq<ModuleConfig>, k: int, newIndex: int)
    requires UniqueIds(list) && 0 <= k < |list| && 0 <= newIndex < |list|
    ensures UniqueIds(Move(list, k, newIndex)) && Ids(Move(list, k, newIndex)) == Ids(list)
    ensures Move(list, k, newIndex)[newIndex] == list[k]
  {
    var order := Move(list, k, newIndex);
    MoveSpec(list, k, newIndex);
    assert UniqueIds(order) by {
      MoveUniqueKeys(list, k, newIndex, IdOf());
      UniqueIdsKeys(list);
      UniqueIdsKeys(order);
    }
    SameMultisetSameSet(order, list);
    assert Ids(order) == Ids(list) by {
      forall id ensures id in Ids(order) <==> id in Ids(list) {
        if id in Ids(order) {
          var c :| c in order && c.id == id;
          assert c in list;
        }
        if id in Ids(list) {
          var c :| c in list && c.id == id;
          assert c in order;
        }
      }
    }
  }

  function IdOf(): ModuleConfig -> string
  {
    (c: ModuleConfig) => c.id
  }

  lemma UniqueIdsKeys(list: seq<ModuleConfig>)
    ensures UniqueIds(list) <==> UniqueKeys(list, IdOf())
  {
  }

  /** The displayed list shows each stored config once. */
  lemma ConfigListUnique(configs: seq<ModuleConfig>)
    requires UniqueIds(configs)
    ensures UniqueIds(ModuleConfigList(configs))
    ensures Ids(ModuleConfigList(configs)) == Ids(configs)
  {
    UniqueIdsKeys(configs);
    SortByUniqueKeys(configs, ByPriority(), IdOf());
    UniqueIdsKeys(ModuleConfigList(configs));
    ModuleConfigListSpec(configs);
    var l := ModuleConfigList(configs);
    forall c ensures c in l <==> c in configs {
      assert c in multiset(l) <==> c in multiset(configs);
    }
  }

  /** The arrow buttons of the settings screen ask for a move by one place and
      are disabled at the ends of the list, so their moves never fail; the
      module trades places with its neighbour. */
  lemma ButtonMoveSucceeds(list: seq<ModuleConfig>, i: int, up: bool)
    requires UniqueIds(list) && 0 <= i < |list|
    requires up ==> i != 0
    requires !up ==> i != |list| - 1
    ensures var newIndex := if up then i - 1 else i + 1;
            MovedOrder(list, list[i].id, newIndex).Some? &&
            MovedOrder(list, list[i].id, newIndex).value == list[i := list[newIndex]][newIndex := list[i]]
  {
    var newIndex := if up then i - 1 else i + 1;
    var k := IndexOfModule(list, list[i].id);
    assert k == i;
    var order := Move(list, i, newIndex);
    var swapped := list[i := list[newIndex]][newIndex := list[i]];
    MoveSourceSpec(list, i, newIndex);
    forall p | 0 <= p < |list| ensures order[p] == swapped[p] {
    }
  }

  class SettingsViewModel {
    const controller: ModuleController

    ghost predicate Valid()
      reads this, controller, controller.repo
    {
      controller.Valid()
    }

    constructor (controller: ModuleController)
      requires controller.Valid()
      ensures Valid() && this.controller == controller
    {
      this.controller := controller;
    }

    /** `setModuleEnabled`: forwarded to the controller. */
    method SetModuleEnabled(moduleId: string, enabled: bool)
      requires Valid()
      modifies controller, controller.repo
      ensures Valid() && controller.modules == old(controller.modules)
      ensures controller.repo.table ==
                if moduleId in old(controller.repo.table)
                then old(controller.repo.table)[moduleId := old(controller.repo.table)[moduleId].(enabled := enabled)]
                else old(controller.repo.table)
    {
      controller.SetModuleEnabled(moduleId, enabled);
    }

    /** `moveModule`: take the module out of the displayed list, put it back at
        `newIndex` and write every module's position as its priority. Where
        the program fails with an index error, `ok` is false and nothing is
        written. */
    method MoveModule(moduleId: string, newIndex: int) returns (ok: bool)
      requires Valid()
      modifies controller, controller.repo
      ensures Valid() && controller.modules == old(controller.modules)
      ensures ok <==> MovedOrder(old(controller.ConfigListView()), moduleId, newIndex).Some?
      ensures ok ==>
                controller.repo.table ==
                  WithPriorities(old(controller.repo.table),
                                 PriorityMap(MovedOrder(old(controller.ConfigListView()), moduleId, newIndex).value))
      ensures !ok ==> controller.repo.table == old(controller.repo.table) &&
                      controller.configs == old(controller.configs)
    {
      var moduleList := controller.ConfigListView();
      var moduleIndex := IndexOfModule(moduleList, moduleId);
      if moduleIndex == -1 {
        return false;
      }
      var removedModule := moduleList[moduleIndex];
      moduleList := RemoveAt(moduleList, moduleIndex);
      if newIndex < 0 || newIndex > |moduleList| {
        return false;
      }
      moduleList := InsertAt(moduleList, newIndex, removedModule);
      controller.SetModulePriorityList(PriorityMap(moduleList));
      ok := true;
    }
  }

  /** After a successful move every stored config's priority is its position
      in the moved list, and nothing else about the configs changes. */
  lemma MoveModuleTable(t: map<string, ModuleConfig>, configs: seq<ModuleConfig>, moduleId: string, newIndex: int)
    requires Mirrors(configs, t)
    requires MovedOrder(ModuleConfigList(configs), moduleId, newIndex).Some?
    ensures var order := MovedOrder(ModuleConfigList(configs), moduleId, newIndex).value;
            var after := WithPriorities(t, PriorityMap(order));
            after.Keys == t.Keys && moduleId in after && after[moduleId].priority == newIndex &&
            forall p :: 0 <= p < |order| ==>
              order[p].id in t && after[order[p].id] == t[order[p].id].(priority := p)
  {
    var list := ModuleConfigList(configs);
    var k := IndexOfModule(list, moduleId);
    ConfigListUnique(configs);
    assert Ids(configs) == t.Keys;
    MovedModules(list, k, newIndex);
    PrioritiesWritten(t, Move(list, k, newIndex));
  }

  /** Writing the position map of an id-unique list covering the table sets
      each config's priority to its position. */
  lemma PrioritiesWritten(t: map<string, ModuleConfig>, order: seq<ModuleConfig>)
    requires UniqueIds(order) && Ids(order) == t.Keys
    ensures forall p :: 0 <= p < |order| ==>
              order[p].id in t && WithPriorities(t, PriorityMap(order))[order[p].id] == t[order[p].id].(priority := p)
  {
    PriorityMapSpec(order);
    forall p | 0 <= p < |order| ensures order[p].id in t {
      assert order[p] in order;
    }
  }
}
