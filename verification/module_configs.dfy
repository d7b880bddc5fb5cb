/** `ModuleConfigRepository`: the persisted `(id, enabled, priority)` row per LED
    module. The table's primary key is `id`, so the table is a map keyed by id;
    `moduleConfigs` is the list read back from the table after every write. */
module ModuleConfigs {

  datatype ModuleConfig = ModuleConfig(id: string, enabled: bool, priority: int)

  /** Every row is stored under its own id (the primary key). */
  predicate KeyedById(table: map<string, ModuleConfig>)
  {
    forall id :: id in table ==> table[id].id == id
  }

  predicate UniqueIds(list: seq<ModuleConfig>)
  {
    forall i, j :: 0 <= i < j < |list| ==> list[i].id != list[j].id
  }

  function Ids(list: seq<ModuleConfig>): set<string>
  {
    set c | c in list :: c.id
  }

  lemma IdsAppend(list: seq<ModuleConfig>, c: ModuleConfig)
    ensures Ids(list + [c]) == Ids(list) + {c.id}
  {
    assert forall x :: x in list + [c] <==> x in list || x == c;
  }

  /** `list.associateBy { it.id }`: a later entry replaces an earlier one with the same id. */
  function AssociateBy(list: seq<ModuleConfig>): (m: map<string, ModuleConfig>)
    ensures m.Keys == Ids(list)
    ensures forall id :: id in m ==> m[id] in list && m[id].id == id
  {
    if list == [] then map[]
    else
      var m := AssociateBy(list[1..]);
      assert Ids(list) == Ids(list[1..]) + {list[0].id};
      if list[0].id in m then m else m[list[0].id := list[0]]
  }

  /** `list.filter { it.id != id }` */
  function RemoveId(list: seq<ModuleConfig>, id: string): (r: seq<ModuleConfig>)
    ensures forall c :: c in r <==> c in list && c.id != id
  {
    if list == [] then []
    else if list[0].id == id then RemoveId(list[1..], id)
    else [list[0]] + RemoveId(list[1..], id)
  }

  lemma {:induction false} AssociateByAt(list: seq<ModuleConfig>, i: int)
    requires UniqueIds(list) && 0 <= i < |list|
    ensures AssociateBy(list)[list[i].id] == list[i]
  {
    if i > 0 {
      assert UniqueIds(list[1..]);
      AssociateByAt(list[1..], i - 1);
    }
  }

  lemma {:induction false} RemoveIdUnique(list: seq<ModuleConfig>, id: string)
    requires UniqueIds(list)
    ensures UniqueIds(RemoveId(list, id))
  {
    if list != [] {
      assert UniqueIds(list[1..]);
      RemoveIdUnique(list[1..], id);
      var rest := RemoveId(list[1..], id);
      forall c | c in rest ensures c.id != list[0].id {
        var k :| 0 <= k < |list[1..]| && list[1..][k] == c;
        assert list[k + 1] == c;
      }
    }
  }

  /** A list whose every entry is the table's row for its id, and whose ids
      are the table's keys, associates to the table. */
  lemma MirrorsByEntries(list: seq<ModuleConfig>, table: map<string, ModuleConfig>)
    requires KeyedById(table)
    requires Ids(list) == table.Keys
    requires forall c :: c in list ==> table[c.id] == c
    ensures AssociateBy(list) == table
  {
    var m := AssociateBy(list);
    assert m.Keys == table.Keys;
    forall id | id in m ensures m[id] == table[id] {
      var c := m[id];
      assert c in list && c.id == id;
      assert table[c.id] == c;
    }
  }

  /** The reloaded list shows exactly the table, each row once. */
  ghost predicate Mirrors(list: seq<ModuleConfig>, table: map<string, ModuleConfig>)
  {
    UniqueIds(list) && AssociateBy(list) == table
  }

  lemma MirrorsEntries(list: seq<ModuleConfig>, table: map<string, ModuleConfig>)
    requires Mirrors(list, table)
    ensures forall c :: c in list ==> c.id in table && table[c.id] == c
  {
    forall c | c in list ensures c.id in table && table[c.id] == c {
      var i :| 0 <= i < |list| && list[i] == c;
      AssociateByAt(list, i);
    }
  }

  /** The largest priority in the table, as the caller may rely on it. */
  ghost predicate IsMaxPriority(table: map<string, ModuleConfig>, p: int)
  {
    (table == map[] ==> p == 0) &&
    (table != map[] ==> (exists id :: id in table && table[id].priority == p) &&
                        forall id :: id in table ==> table[id].priority <= p)
  }

  lemma {:induction false} MaxExists(table: map<string, ModuleConfig>)
    ensures exists p :: IsMaxPriority(table, p)
    decreases |table|
  {
    if table != map[] {
      var id :| id in table;
      var rest := table - {id};
      assert |rest| < |table| by { assert rest.Keys < table.Keys; }
      assert forall k :: k in table ==> k == id || k in rest;
      if rest == map[] {
        assert IsMaxPriority(table, table[id].priority);
      } else {
        MaxExists(rest);
        var q :| IsMaxPriority(rest, q);
        var w :| w in rest && rest[w].priority == q;
        if table[id].priority >= q {
          assert IsMaxPriority(table, table[id].priority);
        } else {
          assert w in table;
          assert IsMaxPriority(table, q);
        }
      }
    } else {
      assert IsMaxPriority(table, 0);
    }
  }

  /** The greatest priority of a table, 0 when it is empty. */
  ghost function MaxPriority(table: map<string, ModuleConfig>): int
  {
    MaxExists(table);
    var p :| IsMaxPriority(table, p);
    p
  }

  lemma MaxPriorityIs(table: map<string, ModuleConfig>)
    ensures IsMaxPriority(table, MaxPriority(table))
  {
    MaxExists(table);
  }

  /** A table has only one greatest priority. */
  lemma MaxPriorityUnique(table: map<string, ModuleConfig>, p: int)
    requires IsMaxPriority(table, p)
    ensures p == MaxPriority(table)
  {
    var q := MaxPriority(table);
    MaxPriorityIs(table);
    if table != map[] {
      var a :| a in table && table[a].priority == p;
      var b :| b in table && table[b].priority == q;
    }
  }

  /** The greatest priority along a list, 0 for the empty list. */
  function MaxOfList(list: seq<ModuleConfig>): int
  {
    if list == [] then 0
    else if |list| == 1 then list[0].priority
    else
      var m := MaxOfList(list[..|list| - 1]);
      if list[|list| - 1].priority > m then list[|list| - 1].priority else m
  }

  lemma {:induction false} MaxOfListSpec(list: seq<ModuleConfig>)
    requires list != []
    ensures exists k :: 0 <= k < |list| && list[k].priority == MaxOfList(list)
    ensures forall k :: 0 <= k < |list| ==> list[k].priority <= MaxOfList(list)
  {
    if |list| == 1 {
      assert list[0].priority == MaxOfList(list);
    } else {
      var init := list[..|list| - 1];
      MaxOfListSpec(init);
      var k :| 0 <= k < |init| && init[k].priority == MaxOfList(init);
      if list[|list| - 1].priority <= MaxOfList(init) {
        assert list[k] == init[k];
      } else {
        assert list[|list| - 1].priority == MaxOfList(list);
      }
      forall j | 0 <= j < |list| - 1 ensures list[j].priority <= MaxOfList(list) {
        assert list[j] == init[j];
      }
    }
  }

  /** The greatest priority of the reloaded list is the greatest of the table. */
  lemma MaxOfMirror(list: seq<ModuleConfig>, table: map<string, ModuleConfig>)
    requires Mirrors(list, table)
    ensures MaxOfList(list) == MaxPriority(table)
  {
    var p := MaxOfList(list);
    if list == [] {
      MaxPriorityUnique(table, 0);
    } else {
      MaxOfListSpec(list);
      MirrorsEntries(list, table);
      var best :| 0 <= best < |list| && list[best].priority == p;
      var c := list[best];
      assert c.id in table && table[c.id].priority == p;
      forall id | id in table ensures table[id].priority <= p {
        var k :| 0 <= k < |list| && list[k] == table[id];
      }
      MaxPriorityUnique(table, p);
    }
  }

  /** Dropping one id from a list that mirrors the table leaves the table's other keys. */
  lemma RemoveIdIds(list: seq<ModuleConfig>, table: map<string, ModuleConfig>, id: string)
    requires Mirrors(list, table)
    ensures Ids(RemoveId(list, id)) == table.Keys - {id}
  {
    var r := RemoveId(list, id);
    forall k | k in table.Keys - {id} ensures k in Ids(r) {
      assert AssociateBy(list)[k] in r;
    }
  }

  lemma AppendUnique(list: seq<ModuleConfig>, c: ModuleConfig)
    requires UniqueIds(list) && c.id !in Ids(list)
    ensures UniqueIds(list + [c])
  {
    var l := list + [c];
    forall i, j | 0 <= i < j < |l| ensures l[i].id != l[j].id {
      if j == |list| {
        assert l[i] in list;
      } else {
        assert l[i] == list[i] && l[j] == list[j];
      }
    }
  }

  /** Reloading after a replace: the old rows with other ids, then the new row. */
  lemma ReplaceMirrors(list: seq<ModuleConfig>, table: map<string, ModuleConfig>, config: ModuleConfig)
    requires KeyedById(table) && Mirrors(list, table)
    ensures KeyedById(table[config.id := config])
    ensures Mirrors(RemoveId(list, config.id) + [config], table[config.id := config])
  {
    var after := table[config.id := config];
    var r := RemoveId(list, config.id);
    var l := r + [config];
    assert Ids(l) == after.Keys by {
      RemoveIdIds(list, table, config.id);
      IdsAppend(r, config);
    }
    assert UniqueIds(l) by {
      RemoveIdUnique(list, config.id);
      RemoveIdIds(list, table, config.id);
      AppendUnique(r, config);
    }
    assert forall c :: c in l ==> after[c.id] == c by {
      MirrorsEntries(list, table);
    }
    MirrorsByEntries(l, after);
  }

  /** Reloading after a delete: the rows with other ids. */
  lemma DeleteMirrors(list: seq<ModuleConfig>, table: map<string, ModuleConfig>, id: string)
    requires KeyedById(table) && Mirrors(list, table)
    ensures KeyedById(table - {id})
    ensures Mirrors(RemoveId(list, id), table - {id})
  {
    var after := table - {id};
    var l := RemoveId(list, id);
    RemoveIdIds(list, table, id);
    RemoveIdUnique(list, id);
    assert forall c :: c in l ==> after[c.id] == c by {
      MirrorsEntries(list, table);
    }
    MirrorsByEntries(l, after);
  }

  class ModuleConfigRepository {
    /** The rows of the module configuration table, by primary key. */
    var table: map<string, ModuleConfig>
    /** `moduleConfigs`, reloaded from the table after every write. */
    var moduleConfigs: seq<ModuleConfig>

    ghost predicate Valid()
      reads this
    {
      KeyedById(table) && Mirrors(moduleConfigs, table)
    }

    /** Opens the store over the rows already persisted and loads the list. */
    constructor (rows: map<string, ModuleConfig>)
      requires KeyedById(rows)
      ensures Valid() && table == rows
    {
      table := rows;
      var list: seq<ModuleConfig> := [];
      var left := rows.Keys;
      while left != {}
        invariant left <= rows.Keys
        invariant UniqueIds(list)
        invariant Ids(list) == rows.Keys - left
        invariant forall c :: c in list ==> c.id in rows && rows[c.id] == c
        decreases left
      {
        var id :| id in left;
        IdsAppend(list, rows[id]);
        assert rows[id].id !in Ids(list);
        list := list + [rows[id]];
        left := left - {id};
      }
      moduleConfigs := list;
      MirrorsByEntries(list, rows);
    }

    /** `moduleConfigMap`: the reloaded list indexed by id. */
    function ModuleConfigMap(): (m: map<string, ModuleConfig>)
      reads this
      requires Valid()
      ensures m == table
    {
      AssociateBy(moduleConfigs)
    }

    /** `replaceModule`: insert or replace the row with this id. */
    method ReplaceModule(config: ModuleConfig)
      requires Valid()
      modifies this
      ensures Valid()
      ensures table == old(table)[config.id := config]
    {
      ReplaceMirrors(moduleConfigs, table, config);
      table := table[config.id := config];
      moduleConfigs := RemoveId(moduleConfigs, config.id) + [config];
    }

    /** `deleteModule`: remove the row with this id, if there is one. */
    method DeleteModule(moduleId: string)
      requires Valid()
      modifies this
      ensures Valid()
      ensures table == old(table) - {moduleId}
    {
      DeleteMirrors(moduleConfigs, table, moduleId);
      table := table - {moduleId};
      moduleConfigs := RemoveId(moduleConfigs, moduleId);
    }

    /** `getMaxPriority`: the greatest stored priority, or 0 for an empty
        table. The query scans the rows; `MaxOfMirror` says the result is the
        table's greatest priority. */
    method GetMaxPriority() returns (p: int)
      requires Valid()
      ensures p == MaxOfList(moduleConfigs)
    {
      var list := moduleConfigs;
      p := 0;
      var i := 0;
      while i < |list|
        invariant 0 <= i <= |list|
        invariant p == MaxOfList(list[..i])
      {
        assert list[..i + 1][..i] == list[..i];
        if i == 0 || list[i].priority > p {
          p := list[i].priority;
        }
        i := i + 1;
      }
      assert list[..i] == list;
    }
  }
}
