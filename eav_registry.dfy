/**
  The definition registry: a static cache of the `attributes` table, filled on first use and
  read by id or by name thereafter (HasAttributeValue::initializeAttributeCache,
  getAttributeById, getAttributeByName).
*/
module EavRegistry {
  import opened Wrappers
  import opened EavTypes

  /** `firstWhere('id', id)`: the first definition with that id, or null. */
  function FindById(defs: seq<AttributeDef>, id: nat): (r: Option<AttributeDef>)
    ensures r.None? <==> forall d :: d in defs ==> d.id != id
    ensures r.Some? ==> exists k :: 0 <= k < |defs| && defs[k] == r.value && r.value.id == id &&
                                  forall j :: 0 <= j < k ==> defs[j].id != id
  {
    if defs == [] then None
    else if defs[0].id == id then Some(defs[0])
    else
      var r := FindById(defs[1..], id);
      assert r.Some? ==> exists k :: 1 <= k < |defs| && defs[k] == r.value && r.value.id == id &&
                                    forall j :: 1 <= j < k ==> defs[j].id != id by {
        if r.Some? {
          var k :| 0 <= k < |defs[1..]| && defs[1..][k] == r.value && r.value.id == id &&
                   forall j :: 0 <= j < k ==> defs[1..][j].id != id;
          assert defs[k + 1] == r.value;
          forall j | 1 <= j < k + 1 ensures defs[j].id != id {
            assert defs[j] == defs[1..][j - 1];
          }
        }
      }
      r
  }

  /** `firstWhere('name', name)`: the first definition with that name, or null. */
  function FindByName(defs: seq<AttributeDef>, name: string): (r: Option<AttributeDef>)
    ensures r.None? <==> forall d :: d in defs ==> d.name != name
    ensures r.Some? ==> exists k :: 0 <= k < |defs| && defs[k] == r.value && r.value.name == name &&
                                  forall j :: 0 <= j < k ==> defs[j].name != name
  {
    if defs == [] then None
    else if defs[0].name == name then Some(defs[0])
    else
      var r := FindByName(defs[1..], name);
      assert r.Some? ==> exists k :: 1 <= k < |defs| && defs[k] == r.value && r.value.name == name &&
                                    forall j :: 1 <= j < k ==> defs[j].name != name by {
        if r.Some? {
          var k :| 0 <= k < |defs[1..]| && defs[1..][k] == r.value && r.value.name == name &&
                   forall j :: 0 <= j < k ==> defs[1..][j].name != name;
          assert defs[k + 1] == r.value;
          forall j | 1 <= j < k + 1 ensures defs[j].name != name {
            assert defs[j] == defs[1..][j - 1];
          }
        }
      }
      r
  }

  /** `whereIn('name', names)->pluck('id')`: the ids of the definitions named in `names`, in table order. */
  function IdsNamed(defs: seq<AttributeDef>, names: seq<string>): (ids: seq<nat>)
    ensures forall id :: id in ids <==> exists d :: d in defs && d.name in names && d.id == id
  {
    if defs == [] then []
    else (if defs[0].name in names then [defs[0].id] else []) + IdsNamed(defs[1..], names)
  }

  /** The definition a requested name finds contributes its id to the list. */
  lemma NamedIdListed(defs: seq<AttributeDef>, names: seq<string>, name: string)
    requires name in names
    ensures FindByName(defs, name).Some? ==> FindByName(defs, name).value.id in IdsNamed(defs, names)
  {
    if FindByName(defs, name).Some? {
      var k :| 0 <= k < |defs| && defs[k] == FindByName(defs, name).value;
      assert defs[k] in defs;
    }
  }

  /** The snapshot the cache holds once initialised: the existing one, or the table as it is now. */
  function Loaded(cache: Option<seq<AttributeDef>>, table: seq<AttributeDef>): seq<AttributeDef> {
    if cache.Some? then cache.value else table
  }

  /** With unique names a definition is found by its own name. */
  lemma FindByOwnName(defs: seq<AttributeDef>, d: AttributeDef)
    requires WellFormedDefs(defs) && d in defs
    ensures FindByName(defs, d.name) == Some(d)
  {
    var r := FindByName(defs, d.name);
    var k :| 0 <= k < |defs| && defs[k] == r.value && r.value.name == d.name &&
             forall j :: 0 <= j < k ==> defs[j].name != d.name;
    var i :| 0 <= i < |defs| && defs[i] == d;
    assert !(i < k) && !(k < i);
  }

  /** With unique ids a definition is found by its own id. */
  lemma FindByOwnId(defs: seq<AttributeDef>, d: AttributeDef)
    requires WellFormedDefs(defs) && d in defs
    ensures FindById(defs, d.id) == Some(d)
  {
    var r := FindById(defs, d.id);
    var k :| 0 <= k < |defs| && defs[k] == r.value && r.value.id == d.id &&
             forall j :: 0 <= j < k ==> defs[j].id != d.id;
    var i :| 0 <= i < |defs| && defs[i] == d;
    assert !(i < k) && !(k < i);
  }

  /** Two different names never resolve to definitions with the same id. */
  lemma DistinctNamesDistinctIds(defs: seq<AttributeDef>, n1: string, n2: string)
    requires WellFormedDefs(defs) && n1 != n2
    requires FindByName(defs, n1).Some? && FindByName(defs, n2).Some?
    ensures FindByName(defs, n1).value.id != FindByName(defs, n2).value.id
  {
    var d1, d2 := FindByName(defs, n1).value, FindByName(defs, n2).value;
    var i :| 0 <= i < |defs| && defs[i] == d1;
    var j :| 0 <= j < |defs| && defs[j] == d2;
    assert i != j;
    assert i < j || j < i;
  }

  /**
    The process-wide cache (`static::$attributesCache`). It is assigned only while it is null;
    every lookup goes through `Initialize` first and then reads the cached snapshot.
  */
  class AttributeRegistry {
    var cache: Option<seq<AttributeDef>>

    ghost predicate Valid()
      reads this
    {
      cache.Some? ==> WellFormedDefs(cache.value)
    }

    constructor ()
      ensures cache == None && Valid()
    {
      cache := None;
    }

    /** initializeAttributeCache: fill the cache from the table, but only while it is still null. */
    method Initialize(table: seq<AttributeDef>)
      requires Valid() && WellFormedDefs(table)
      modifies this
      ensures Valid()
      ensures cache == Some(Loaded(old(cache), table))
      ensures old(cache).Some? ==> cache == old(cache)
    {
      if cache.None? {
        cache := Some(table);
      }
    }

    /** getAttributeById. */
    method ById(table: seq<AttributeDef>, id: nat) returns (r: Option<AttributeDef>)
      requires Valid() && WellFormedDefs(table)
      modifies this
      ensures Valid() && cache == Some(Loaded(old(cache), table))
      ensures r == FindById(cache.value, id)
    {
      Initialize(table);
      r := FindById(cache.value, id);
    }

    /** getAttributeByName. */
    method ByName(table: seq<AttributeDef>, name: string) returns (r: Option<AttributeDef>)
      requires Valid() && WellFormedDefs(table)
      modifies this
      ensures Valid() && cache == Some(Loaded(old(cache), table))
      ensures r == FindByName(cache.value, name)
    {
      Initialize(table);
      r := FindByName(cache.value, name);
    }
  }
}
