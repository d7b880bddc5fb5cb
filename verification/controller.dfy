/** `ModuleController`: reconciles the persisted module configurations with the
    registered LED modules at start-up, derives the priority-sorted views, and
    writes enable flags and priorities through to the repository. The
    coroutine launches are synchronous steps here. */
module Controller {
  import opened Seqs
  import opened ModuleConfigs

  /** A registered LED module, known by its stable id. */
  datatype LedModule = LedModule(moduleId: string)

  function ByPriority(): ModuleConfig -> int
  {
    (c: ModuleConfig) => c.priority
  }

  /** `moduleConfigList`: every loaded config, sorted by priority. */
  function ModuleConfigList(configs: seq<ModuleConfig>): (r: seq<ModuleConfig>)
    ensures |r| == |configs| && multiset(r) == multiset(configs)
  {
    SortBy(configs, ByPriority())
  }

  /** The sorted view holds every stored config once and is ordered by priority. */
  lemma ModuleConfigListSpec(configs: seq<ModuleConfig>)
    ensures multiset(ModuleConfigList(configs)) == multiset(configs)
    ensures forall i, j :: 0 <= i < j < |configs| ==>
              ModuleConfigList(configs)[i].priority <= ModuleConfigList(configs)[j].priority
  {
    SortBySorted(configs, ByPriority());
  }

  /** `configs[it.moduleId]?.enabled ?: false` */
  function EnabledIn(cfg: map<string, ModuleConfig>): LedModule -> bool
  {
    (m: LedModule) => m.moduleId in cfg && cfg[m.moduleId].enabled
  }

  /** `configs[it.moduleId]?.priority ?: 999` */
  function PriorityIn(cfg: map<string, ModuleConfig>): LedModule -> int
  {
    (m: LedModule) => if m.moduleId in cfg then cfg[m.moduleId].priority else 999
  }

  /** `moduleList`: the enabled registered modules, stably sorted by priority. */
  function ModuleList(modules: seq<LedModule>, cfg: map<string, ModuleConfig>): (r: seq<LedModule>)
    ensures |r| <= |modules|
    ensures cfg == map[] ==> r == []
  {
    SortBy(Filter(modules, EnabledIn(cfg)), PriorityIn(cfg))
  }

  /** The composed module list keeps exactly the registered modules that have a
      config saying enabled, each as often as it is registered. */
  lemma ModuleListMembers(modules: seq<LedModule>, cfg: map<string, ModuleConfig>)
    ensures forall m :: m in ModuleList(modules, cfg) <==>
              m in modules && m.moduleId in cfg && cfg[m.moduleId].enabled
    ensures multiset(ModuleList(modules, cfg)) == multiset(Filter(modules, EnabledIn(cfg)))
  {
    var kept := Filter(modules, EnabledIn(cfg));
    var r := ModuleList(modules, cfg);
    forall m ensures m in r <==> m in kept {
      assert m in r <==> m in multiset(r);
      assert m in kept <==> m in multiset(kept);
    }
    forall m | m in kept ensures m in modules && EnabledIn(cfg)(m) {
      var i :| 0 <= i < |kept| && kept[i] == m;
    }
    forall m | m in modules && EnabledIn(cfg)(m) ensures m in kept {
      var i :| 0 <= i < |modules| && modules[i] == m;
      FilterKeeps(modules, EnabledIn(cfg), i);
    }
  }

  /** The composed module list is ordered by the stored priority of each module. */
  lemma ModuleListSorted(modules: seq<LedModule>, cfg: map<string, ModuleConfig>)
    ensures forall i, j :: 0 <= i < j < |ModuleList(modules, cfg)| ==>
              var a, b := ModuleList(modules, cfg)[i], ModuleList(modules, cfg)[j];
              a.moduleId in cfg && b.moduleId in cfg && cfg[a.moduleId].priority <= cfg[b.moduleId].priority
  {
    var kept := Filter(modules, EnabledIn(cfg));
    var r := ModuleList(modules, cfg);
    SortBySorted(kept, PriorityIn(cfg));
    forall i | 0 <= i < |r| ensures r[i].moduleId in cfg {
      assert r[i] in multiset(kept);
      var k :| 0 <= k < |kept| && kept[k] == r[i];
    }
  }

  /** Modules of equal priority keep their registration order. */
  lemma ModuleListStable(modules: seq<LedModule>, cfg: map<string, ModuleConfig>, p: int)
    ensures WithKey(ModuleList(modules, cfg), PriorityIn(cfg), p)
         == WithKey(Filter(modules, EnabledIn(cfg)), PriorityIn(cfg), p)
  {
    SortByStable(Filter(modules, EnabledIn(cfg)), PriorityIn(cfg), p);
  }

  /** A registered module has this id. */
  predicate HasModule(modules: seq<LedModule>, id: string)
  {
    exists i :: 0 <= i < |modules| && modules[i].moduleId == id
  }

  function RegisteredIds(modules: seq<LedModule>): set<string>
  {
    set m | m in modules :: m.moduleId
  }

  /** The stored ids the start-up deletes, in load order. */
  function StaleIds(configs: seq<ModuleConfig>, modules: seq<LedModule>): (r: seq<string>)
    ensures |r| <= |configs|
    ensures forall i :: 0 <= i < |r| ==> !HasModule(modules, r[i])
  {
    if configs == [] then []
    else
      var rest := StaleIds(configs[..|configs| - 1], modules);
      var c := configs[|configs| - 1];
      if HasModule(modules, c.id) then rest else rest + [c.id]
  }

  lemma {:induction false} StaleIdsSpec(configs: seq<ModuleConfig>, modules: seq<LedModule>)
    ensures forall id :: id in StaleIds(configs, modules) <==> id in Ids(configs) && !HasModule(modules, id)
  {
    if configs != [] {
      var init := configs[..|configs| - 1];
      StaleIdsSpec(init, modules);
      assert configs == init + [configs[|configs| - 1]];
      IdsAppend(init, configs[|configs| - 1]);
    }
  }

  /** `{ it.moduleId !in configs }` */
  function Unconfigured(cfg: map<string, ModuleConfig>): LedModule -> bool
  {
    (m: LedModule) => m.moduleId !in cfg
  }

  /** The configs start-up creates, in registration order: the `k`-th one is
      enabled with priority `base + 1 + k`, where `base` is the greatest
      priority left after the deletes (0 when none is left). */
  function Created(missing: seq<LedModule>, base: int): (r: seq<ModuleConfig>)
    ensures |r| == |missing|
    ensures forall k :: 0 <= k < |r| ==> r[k] == ModuleConfig(missing[k].moduleId, true, base + 1 + k)
  {
    if missing == [] then []
    else Created(missing[..|missing| - 1], base) + [ModuleConfig(missing[|missing| - 1].moduleId, true, base + |missing|)]
  }

  /** The table after writing `cs` in order. */
  function WithCreated(t: map<string, ModuleConfig>, cs: seq<ModuleConfig>): (r: map<string, ModuleConfig>)
    ensures r.Keys == t.Keys + Ids(cs)
  {
    if cs == [] then t
    else
      var init := cs[..|cs| - 1];
      assert cs == init + [cs[|cs| - 1]];
      IdsAppend(init, cs[|cs| - 1]);
      WithCreated(t, init)[cs[|cs| - 1].id := cs[|cs| - 1]]
  }

  lemma CreatedStep(missing: seq<LedModule>, j: int, base: int)
    requires 0 <= j < |missing|
    ensures Created(missing[..j + 1], base) == Created(missing[..j], base) + [ModuleConfig(missing[j].moduleId, true, base + j + 1)]
  {
    assert missing[..j + 1][..j] == missing[..j];
  }

  lemma WithCreatedSnoc(t: map<string, ModuleConfig>, cs: seq<ModuleConfig>, c: ModuleConfig)
    ensures WithCreated(t, cs + [c]) == WithCreated(t, cs)[c.id := c]
  {
    assert (cs + [c])[..|cs|] == cs;
  }

  lemma {:induction false} WithCreatedKeeps(t: map<string, ModuleConfig>, cs: seq<ModuleConfig>, id: string)
    requires id in t && id !in Ids(cs)
    ensures WithCreated(t, cs)[id] == t[id]
  {
    if cs != [] {
      var init := cs[..|cs| - 1];
      assert cs == init + [cs[|cs| - 1]];
      IdsAppend(init, cs[|cs| - 1]);
      WithCreatedKeeps(t, init, id);
    }
  }

  lemma {:induction false} WithCreatedNew(t: map<string, ModuleConfig>, cs: seq<ModuleConfig>, id: string)
    requires id !in t && id in WithCreated(t, cs)
    ensures WithCreated(t, cs)[id] in cs
  {
    var init := cs[..|cs| - 1];
    assert cs == init + [cs[|cs| - 1]];
    IdsAppend(init, cs[|cs| - 1]);
    if cs[|cs| - 1].id != id {
      WithCreatedNew(t, init, id);
    }
  }

  lemma CreatedIds(missing: seq<LedModule>, base: int)
    ensures Ids(Created(missing, base)) == RegisteredIds(missing)
  {
    var cs := Created(missing, base);
    forall id ensures id in Ids(cs) <==> id in RegisteredIds(missing) {
      if id in Ids(cs) {
        var c :| c in cs && c.id == id;
        var k :| 0 <= k < |cs| && cs[k] == c;
        assert missing[k] in missing;
      }
      if id in RegisteredIds(missing) {
        var m :| m in missing && m.moduleId == id;
        var k :| 0 <= k < |missing| && missing[k] == m;
        assert cs[k] in cs;
      }
    }
  }

  /** The stored configs whose id is registered: what the deletes leave. */
  function Survivors(t: map<string, ModuleConfig>, modules: seq<LedModule>): map<string, ModuleConfig>
  {
    map id | id in t && HasModule(modules, id) :: t[id]
  }

  /** When the stored ids are exactly the registered ids, reconciling plans no
      delete and no insert: running start-up twice writes nothing the second time. */
  lemma ReconcileIdempotent(configs: seq<ModuleConfig>, modules: seq<LedModule>)
    requires Ids(configs) == RegisteredIds(modules)
    ensures StaleIds(configs, modules) == []
    ensures Filter(modules, Unconfigured(AssociateBy(configs))) == []
  {
    forall id | id in Ids(configs) ensures HasModule(modules, id) {
      var m :| m in modules && m.moduleId == id;
      var i :| 0 <= i < |modules| && modules[i] == m;
    }
    StaleIdsNone(configs, modules);
    forall i | 0 <= i < |modules| ensures !Unconfigured(AssociateBy(configs))(modules[i]) {
      assert modules[i] in modules;
    }
    FilterNone(modules, Unconfigured(AssociateBy(configs)));
  }

  lemma {:induction false} StaleIdsNone(configs: seq<ModuleConfig>, modules: seq<LedModule>)
    requires forall id :: id in Ids(configs) ==> HasModule(modules, id)
    ensures StaleIds(configs, modules) == []
  {
    if configs != [] {
      var init := configs[..|configs| - 1];
      assert configs == init + [configs[|configs| - 1]];
      IdsAppend(init, configs[|configs| - 1]);
      StaleIdsNone(init, modules);
    }
  }

  class ModuleController {
    const repo: ModuleConfigRepository
    /** `_moduleList`: the registered modules. */
    var modules: seq<LedModule>
    /** `_moduleConfigMap` as last loaded, in the repository's list order. */
    var configs: seq<ModuleConfig>

    ghost predicate Valid()
      reads this, repo
    {
      repo.Valid() && configs == repo.moduleConfigs
    }

    /** `_moduleConfigMap.value` */
    function ConfigMap(): map<string, ModuleConfig>
      reads this
    {
      AssociateBy(configs)
    }

    /** The current `moduleConfigList` value. */
    function ConfigListView(): seq<ModuleConfig>
      reads this
    {
      ModuleConfigList(configs)
    }

    /** The current `moduleList` value: the modules the render loop composes. */
    function ModuleListView(): seq<LedModule>
      reads this
    {
      ModuleList(modules, ConfigMap())
    }

    /** Builds the controller and runs the start-up reconciliation: stale
        configs are deleted, each registered module lacking a config gets an
        enabled one above every priority then stored, and the map is reloaded. */
    constructor (registered: seq<LedModule>, repo: ModuleConfigRepository)
      requires repo.Valid()
      modifies repo
      ensures Valid() && this.repo == repo && modules == registered
      ensures repo.table.Keys == RegisteredIds(registered)
      ensures forall id :: id in old(repo.table) && HasModule(registered, id) ==>
                repo.table[id] == old(repo.table)[id]
      ensures forall id :: id in repo.table && id !in old(repo.table) ==>
                repo.table[id].enabled &&
                forall other :: other in old(repo.table) && HasModule(registered, other) ==>
                  old(repo.table)[other].priority < repo.table[id].priority
    {
      this.repo := repo;
      modules := [];
      configs := repo.moduleConfigs;
      new;
      var deleted, created := Reconcile(registered);
    }

    /** The launched body of `init`: delete the stale configs, create the
        missing ones, reload. The deletes and creates it issues are returned
        so that a caller can see what was written. */
    method Reconcile(registered: seq<LedModule>) returns (deleted: seq<string>, created: seq<ModuleConfig>)
      requires Valid()
      modifies this, repo
      ensures Valid() && modules == registered
      ensures deleted == StaleIds(old(configs), registered)
      ensures created == Created(Filter(registered, Unconfigured(old(ConfigMap()))),
                                 MaxPriority(Survivors(old(repo.table), registered)))
      ensures repo.table == WithCreated(Survivors(old(repo.table), registered), created)
      ensures repo.table.Keys == RegisteredIds(registered)
      ensures forall id :: id in old(repo.table) && HasModule(registered, id) ==>
                repo.table[id] == old(repo.table)[id]
      ensures forall id :: id in repo.table && id !in old(repo.table) ==>
                repo.table[id].enabled &&
                forall other :: other in old(repo.table) && HasModule(registered, other) ==>
                  old(repo.table)[other].priority < repo.table[id].priority
    {
      ghost var t0 := repo.table;
      var cfg := ConfigMap();
      modules := registered;
      deleted := DeleteStale(registered);
      MaxOfMirror(repo.moduleConfigs, repo.table);
      var missing := Filter(registered, Unconfigured(cfg));
      created := CreateMissing(missing);
      // reload the configuration map
      configs := repo.moduleConfigs;
      ReconcileOutcome(t0, registered, missing, created);
    }

    /** The first half of start-up: every config of the loaded map whose id
        matches no registered module is deleted. */
    method DeleteStale(registered: seq<LedModule>) returns (deleted: seq<string>)
      requires Valid()
      modifies repo
      ensures repo.Valid()
      ensures deleted == StaleIds(configs, registered)
      ensures repo.table == Survivors(old(repo.table), registered)
    {
      ghost var t0 := repo.table;
      var snapshot := configs;
      deleted := [];
      var i := 0;
      while i < |snapshot|
        invariant 0 <= i <= |snapshot|
        invariant repo.Valid()
        invariant deleted == StaleIds(snapshot[..i], registered)
        invariant repo.table == RemoveAll(t0, deleted)
      {
        assert snapshot[..i + 1] == snapshot[..i] + [snapshot[i]];
        deleted := DeleteIfStale(snapshot[i], registered, t0, snapshot[..i], deleted);
        i := i + 1;
      }
      assert snapshot[..i] == snapshot;
      SurvivorsByDelete(t0, snapshot, registered);
    }

    /** One step of the deletes: `c` is deleted when no registered module has
        its id. The ghost parameters carry the configs visited so far. */
    method DeleteIfStale(c: ModuleConfig, registered: seq<LedModule>, ghost t0: map<string, ModuleConfig>,
                         ghost visited: seq<ModuleConfig>, deletedSoFar: seq<string>)
      returns (deleted: seq<string>)
      requires repo.Valid()
      requires deletedSoFar == StaleIds(visited, registered)
      requires repo.table == RemoveAll(t0, deletedSoFar)
      modifies repo
      ensures repo.Valid()
      ensures deleted == StaleIds(visited + [c], registered)
      ensures repo.table == RemoveAll(t0, deleted)
    {
      assert (visited + [c])[..|visited|] == visited;
      deleted := deletedSoFar;
      if !HasModule(registered, c.id) {
        repo.DeleteModule(c.id);
        deleted := deleted + [c.id];
        assert deleted[..|deletedSoFar|] == deletedSoFar;
      }
    }

    /** The second half of start-up: each module of `missing` (the registered
        modules absent from the loaded map) gets an enabled config one above
        the greatest stored priority, asked afresh before each insert. */
    method CreateMissing(missing: seq<LedModule>) returns (created: seq<ModuleConfig>)
      requires repo.Valid()
      modifies repo
      ensures repo.Valid()
      ensures created == Created(missing, MaxOfList(old(repo.moduleConfigs)))
      ensures repo.table == WithCreated(old(repo.table), created)
    {
      ghost var t0 := repo.table;
      ghost var base := MaxOfList(repo.moduleConfigs);
      created := [];
      var j := 0;
      while j < |missing|
        invariant 0 <= j <= |missing|
        invariant repo.Valid()
        invariant created == Created(missing[..j], base)
        invariant repo.table == WithCreated(t0, created)
        invariant MaxOfList(repo.moduleConfigs) == base + j
      {
        created := CreateOne(missing, j, t0, base, created);
        j := j + 1;
      }
      assert missing[..j] == missing;
    }

    /** One insert of start-up: an enabled config for `missing[j]`, one above
        the greatest stored priority, which it then becomes. The ghost
        parameters carry the table before the inserts and the priority they
        start above. */
    method CreateOne(missing: seq<LedModule>, j: int, ghost t0: map<string, ModuleConfig>,
                     ghost base: int, createdSoFar: seq<ModuleConfig>)
      returns (created: seq<ModuleConfig>)
      requires repo.Valid() && 0 <= j < |missing|
      requires createdSoFar == Created(missing[..j], base)
      requires repo.table == WithCreated(t0, createdSoFar)
      requires MaxOfList(repo.moduleConfigs) == base + j
      modifies repo
      ensures repo.Valid()
      ensures created == Created(missing[..j + 1], base)
      ensures repo.table == WithCreated(t0, created)
      ensures MaxOfList(repo.moduleConfigs) == base + j + 1
    {
      var top := repo.GetMaxPriority();
      var c := ModuleConfig(missing[j].moduleId, true, top + 1);
      ghost var before, beforeTable := repo.moduleConfigs, repo.table;
      repo.ReplaceModule(c);
      assert MaxOfList(repo.moduleConfigs) == base + j + 1 by {
        MaxAfterWrite(before, repo.moduleConfigs, beforeTable, c);
      }
      created := createdSoFar + [c];
      assert created == Created(missing[..j + 1], base) by {
        CreatedStep(missing, j, base);
      }
      assert repo.table == WithCreated(t0, created) by {
        WithCreatedSnoc(t0, createdSoFar, c);
      }
    }

    /** `setModulePriorityList`: each id that has a config gets the given
        priority; unknown ids are ignored and ids not in the map keep theirs. */
    method SetModulePriorityList(priorities: map<string, int>)
      requires Valid()
      modifies this, repo
      ensures Valid() && modules == old(modules)
      ensures repo.table == WithPriorities(old(repo.table), priorities)
    {
      ghost var t0 := repo.table;
      var cfg := ConfigMap();
      var left := priorities.Keys;
      while left != {}
        invariant left <= priorities.Keys
        invariant repo.Valid() && modules == old(modules) && configs == old(configs)
        invariant repo.table == WithPriorities(t0, Restrict(priorities, left))
        decreases left
      {
        var id :| id in left;
        SetOnePriority(id, priorities, cfg, left);
        left := left - {id};
      }
      assert Restrict(priorities, {}) == priorities;
      configs := repo.moduleConfigs;
    }

    /** One entry of `setModulePriorityList`: the config loaded under `id`,
        if any, is written back with the new priority. */
    method SetOnePriority(id: string, priorities: map<string, int>, cfg: map<string, ModuleConfig>,
                          ghost left: set<string>)
      requires id in left && left <= priorities.Keys
      requires repo.Valid() && repo.table == WithPriorities(cfg, Restrict(priorities, left))
      modifies repo
      ensures repo.Valid() && repo.table == WithPriorities(cfg, Restrict(priorities, left - {id}))
    {
      PriorityStep(cfg, priorities, left, id);
      if id in cfg {
        repo.ReplaceModule(cfg[id].(priority := priorities[id]));
      }
    }

    /** `setModuleEnabled`: only the enabled flag of an existing config changes;
        an unknown id changes nothing. */
    method SetModuleEnabled(moduleId: string, enabled: bool)
      requires Valid()
      modifies this, repo
      ensures Valid() && modules == old(modules)
      ensures repo.table == if moduleId in old(repo.table)
                            then old(repo.table)[moduleId := old(repo.table)[moduleId].(enabled := enabled)]
                            else old(repo.table)
    {
      var cfg := ConfigMap();
      if moduleId in cfg {
        repo.ReplaceModule(cfg[moduleId].(enabled := enabled));
      }
      configs := repo.moduleConfigs;
    }
  }

  /** The entries of `priorities` outside `left`: those already written. */
  function Restrict(priorities: map<string, int>, left: set<string>): map<string, int>
  {
    map id | id in priorities && id !in left :: priorities[id]
  }

  lemma PriorityStep(t: map<string, ModuleConfig>, priorities: map<string, int>, left: set<string>, id: string)
    requires id in left && left <= priorities.Keys
    ensures WithPriorities(t, Restrict(priorities, left - {id}))
         == if id in t then WithPriorities(t, Restrict(priorities, left))[id := t[id].(priority := priorities[id])]
            else WithPriorities(t, Restrict(priorities, left))
  {
  }

  /** The table after a priority map is written: configs keep their ids and
      enabled flags, and only listed ids get a new priority. */
  function WithPriorities(t: map<string, ModuleConfig>, priorities: map<string, int>): (r: map<string, ModuleConfig>)
    ensures r.Keys == t.Keys
  {
    map id | id in t :: if id in priorities then t[id].(priority := priorities[id]) else t[id]
  }

  /** The table after deleting the ids `ds` in order. */
  function RemoveAll(t: map<string, ModuleConfig>, ds: seq<string>): map<string, ModuleConfig>
  {
    if ds == [] then t
    else RemoveAll(t, ds[..|ds| - 1]) - {ds[|ds| - 1]}
  }

  lemma {:induction false} RemoveAllSpec(t: map<string, ModuleConfig>, ds: seq<string>)
    ensures forall id :: id in RemoveAll(t, ds) <==> id in t && id !in ds
    ensures forall id :: id in RemoveAll(t, ds) ==> RemoveAll(t, ds)[id] == t[id]
  {
    if ds != [] {
      var init := ds[..|ds| - 1];
      RemoveAllSpec(t, init);
      assert ds == init + [ds[|ds| - 1]];
    }
  }

  /** Deleting the stale ids of a list mirroring `t` leaves the survivors. */
  lemma SurvivorsByDelete(t: map<string, ModuleConfig>, configs: seq<ModuleConfig>, registered: seq<LedModule>)
    requires Ids(configs) == t.Keys
    ensures RemoveAll(t, StaleIds(configs, registered)) == Survivors(t, registered)
  {
    StaleIdsSpec(configs, registered);
    RemoveAllSpec(t, StaleIds(configs, registered));
  }

  /** Writing a config one above the greatest priority makes it the greatest. */
  lemma MaxAfterWrite(beforeList: seq<ModuleConfig>, afterList: seq<ModuleConfig>,
                      before: map<string, ModuleConfig>, c: ModuleConfig)
    requires Mirrors(beforeList, before) && Mirrors(afterList, before[c.id := c])
    requires MaxOfList(beforeList) == c.priority - 1
    ensures MaxOfList(afterList) == c.priority
  {
    MaxOfMirror(beforeList, before);
    MaxOfMirror(afterList, before[c.id := c]);
    MaxPriorityIs(before);
    var after := before[c.id := c];
    assert c.id in after && after[c.id].priority == c.priority;
    assert IsMaxPriority(after, c.priority);
    MaxPriorityUnique(after, c.priority);
  }

  lemma ReconcileKeys(t0: map<string, ModuleConfig>, registered: seq<LedModule>,
                      cfg: map<string, ModuleConfig>, missing: seq<LedModule>)
    requires cfg == t0
    requires missing == Filter(registered, Unconfigured(cfg))
    ensures Survivors(t0, registered).Keys + RegisteredIds(missing) == RegisteredIds(registered)
  {
    forall id ensures id in Survivors(t0, registered).Keys + RegisteredIds(missing) <==> id in RegisteredIds(registered) {
      if id in RegisteredIds(registered) {
        var m :| m in registered && m.moduleId == id;
        var k :| 0 <= k < |registered| && registered[k] == m;
        assert HasModule(registered, id);
        if id !in t0 {
          FilterKeeps(registered, Unconfigured(cfg), k);
        }
      }
      if id in RegisteredIds(missing) {
        var m :| m in missing && m.moduleId == id;
        assert m in registered;
      }
      if id in Survivors(t0, registered).Keys {
        var k :| 0 <= k < |registered| && registered[k].moduleId == id;
        assert registered[k] in registered;
      }
    }
  }

  /** What start-up leaves behind: exactly the registered ids are stored,
      surviving configs are untouched, and every created config is enabled and
      above every surviving priority. */
  lemma ReconcileOutcome(t0: map<string, ModuleConfig>, registered: seq<LedModule>,
                         missing: seq<LedModule>, created: seq<ModuleConfig>)
    requires missing == Filter(registered, Unconfigured(t0))
    requires created == Created(missing, MaxPriority(Survivors(t0, registered)))
    ensures WithCreated(Survivors(t0, registered), created).Keys == RegisteredIds(registered)
    ensures forall id :: id in t0 && HasModule(registered, id) ==>
              WithCreated(Survivors(t0, registered), created)[id] == t0[id]
    ensures forall id :: id in WithCreated(Survivors(t0, registered), created) && id !in t0 ==>
              WithCreated(Survivors(t0, registered), created)[id].enabled &&
              forall other :: other in t0 && HasModule(registered, other) ==>
                t0[other].priority < WithCreated(Survivors(t0, registered), created)[id].priority
  {
    CreatedIds(missing, MaxPriority(Survivors(t0, registered)));
    ReconcileKeys(t0, registered, t0, missing);
    SurvivorsKept(t0, registered, missing, created);
    CreatedAbove(t0, registered, missing, created);
  }

  lemma SurvivorsKept(t0: map<string, ModuleConfig>, registered: seq<LedModule>,
                      missing: seq<LedModule>, created: seq<ModuleConfig>)
    requires missing == Filter(registered, Unconfigured(t0))
    requires Ids(created) == RegisteredIds(missing)
    ensures forall id :: id in t0 && HasModule(registered, id) ==>
              WithCreated(Survivors(t0, registered), created)[id] == t0[id]
  {
    forall m | m in missing ensures m.moduleId !in t0 {
      var k :| 0 <= k < |missing| && missing[k] == m;
    }
    forall id | id in t0 && HasModule(registered, id)
      ensures WithCreated(Survivors(t0, registered), created)[id] == t0[id]
    {
      WithCreatedKeeps(Survivors(t0, registered), created, id);
    }
  }

  lemma CreatedAbove(t0: map<string, ModuleConfig>, registered: seq<LedModule>,
                     missing: seq<LedModule>, created: seq<ModuleConfig>)
    requires created == Created(missing, MaxPriority(Survivors(t0, registered)))
    ensures forall id :: id in WithCreated(Survivors(t0, registered), created) && id !in t0 ==>
              WithCreated(Survivors(t0, registered), created)[id].enabled &&
              forall other :: other in t0 && HasModule(registered, other) ==>
                t0[other].priority < WithCreated(Survivors(t0, registered), created)[id].priority
  {
    var survivors := Survivors(t0, registered);
    var base := MaxPriority(survivors);
    MaxPriorityIs(survivors);
    var t := WithCreated(survivors, created);
    forall id | id in t && id !in t0
      ensures t[id].enabled && forall other :: other in t0 && HasModule(registered, other) ==> t0[other].priority < t[id].priority
    {
      WithCreatedNew(survivors, created, id);
      var k :| 0 <= k < |created| && created[k] == t[id];
      forall other | other in t0 && HasModule(registered, other)
        ensures t0[other].priority < t[id].priority
      {
        assert other in survivors;
      }
    }
  }
}
