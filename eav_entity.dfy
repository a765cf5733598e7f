/**
  A model that uses the `HasAttributeValue` trait (such as `Project`): its static attributes, its
  loaded `attributeValues` collection, and the trait's operations over the shared definition
  cache and the `attribute_values` table.
*/
module EavEntity {
  import opened Wrappers
  import opened Json
  import opened EavTypes
  import opened EavRegistry
  import opened EavCodec
  import opened EavRows
  import opened EavStore
  import opened EavFilter
  import opened EavRead

  /** With a well-formed table and cache, the definitions every lookup sees are well formed. */
  lemma LoadedWellFormed(cache: Option<seq<AttributeDef>>, table: seq<AttributeDef>)
    requires (cache.Some? ==> WellFormedDefs(cache.value)) && WellFormedDefs(table)
    ensures WellFormedDefs(Loaded(cache, table))
  {
  }

  /** The set of the ids in a list (`whereIn` on an id list). */
  function AttrSet(ids: seq<nat>): (s: set<nat>)
    ensures forall a :: a in s <==> a in ids
  {
    set a | a in ids
  }

  /** The JSON form of a loaded row, as `toArray` serialises the relation. */
  function RowJson(x: Row<Scalar>): Json {
    JObj(map["id" := JNum(x.id as real), "attribute_id" := JNum(x.attributeId as real),
             "entity_type" := JStr(x.entityType), "entity_id" := JNum(x.entityId as real), "value" := Raw(x.value)])
  }

  function RowsJson(rows: seq<Row<Scalar>>): (r: seq<Json>)
    ensures |r| == |rows|
    ensures forall i :: 0 <= i < |rows| ==> r[i] == RowJson(rows[i])
  {
    if rows == [] then []
    else
      assert forall i :: 1 <= i < |rows| ==> rows[i] == rows[1..][i - 1];
      [RowJson(rows[0])] + RowsJson(rows[1..])
  }

  /**
    The ids an owner collects from a collection in step with its rows pick out exactly its rows of
    `attrs`, so deleting them is deleting those rows.
  */
  lemma DeletingCollectedIds(env: Platform, snap: seq<Row<Scalar>>, rows: seq<Row<string>>, attrs: set<nat>, t: string, e: nat)
    requires UniqueIds(rows) && ColumnRows(env, snap) == OwnerRows(rows, t, e)
    ensures RemoveIds(rows, IdsWithAttrs(snap, attrs)) == RemoveAttrs(rows, attrs, t, e)
  {
    IdsWithAttrsColumn(env, snap, attrs);
    IdsOfOwnedAttrs(rows, attrs, t, e);
    RemoveIdsIsRemoveAttrs(rows, IdsWithAttrs(snap, attrs), attrs, t, e);
  }

  /** Clearing the rows of one name's attribute clears that name's stored value and no other. */
  lemma ClearedStored(defs: seq<AttributeDef>, rows: seq<Row<string>>, key: string, t: string, e: nat)
    requires WellFormedDefs(defs) && FindByName(defs, key).Some?
    ensures forall name :: StoredText(defs, RemoveAttrs(rows, {FindByName(defs, key).value.id}, t, e), t, e, name) ==
                           if name == key then None else StoredText(defs, rows, t, e, name)
  {
    forall name
      ensures StoredText(defs, RemoveAttrs(rows, {FindByName(defs, key).value.id}, t, e), t, e, name) ==
              if name == key then None else StoredText(defs, rows, t, e, name)
    {
      RemoveStored(defs, rows, {FindByName(defs, key).value.id}, t, e, name);
      if name != key && FindByName(defs, name).Some? {
        DistinctNamesDistinctIds(defs, name, key);
      }
    }
  }

  /** Deleting the owner's rows of the named attributes clears exactly those names' stored values. */
  lemma ClearedStoredMany(defs: seq<AttributeDef>, rows: seq<Row<string>>, names: seq<string>, t: string, e: nat)
    requires WellFormedDefs(defs)
    ensures forall name :: StoredText(defs, RemoveAttrs(rows, AttrSet(IdsNamed(defs, names)), t, e), t, e, name) ==
                           if name in names then None else StoredText(defs, rows, t, e, name)
  {
    var attrs := AttrSet(IdsNamed(defs, names));
    forall name
      ensures StoredText(defs, RemoveAttrs(rows, attrs, t, e), t, e, name) ==
              if name in names then None else StoredText(defs, rows, t, e, name)
    {
      RemoveStored(defs, rows, attrs, t, e, name);
      if FindByName(defs, name).Some? {
        IdsNamedOf(defs, names, FindByName(defs, name).value);
      }
    }
  }

  /** A name that is not defined reads as null and absent, whatever the collection. */
  lemma UndefinedReadsNull(env: Platform, defs: seq<AttributeDef>, snap: seq<Row<Scalar>>, name: string)
    requires FindByName(defs, name).None?
    ensures ValueOf(env, defs, snap, name) == JNull && !HasValue(defs, snap, name)
  {
  }

  /** applyEavOperatorFilter: one `whereHas` over rows of `attributeId` with the operator's predicate. */
  method ApplyEavOperatorFilter(q: Query, attributeId: nat, operator: string, value: Operand)
    modifies q
    ensures q.clauses == old(q.clauses) + [HasRow([attributeId], OperatorPred(operator, value))]
  {
    q.WhereHas(HasRow([attributeId], OperatorPred(operator, value)));
  }

  /** The clause of one condition whose attribute id is known: the operator filter or an equality. */
  method WhereEavFilter(q: Query, attributeId: nat, condition: Condition)
    requires !ArrayOperator(condition)
    modifies q
    ensures q.clauses == old(q.clauses) + [ConditionClause(attributeId, condition)]
  {
    if IsOperatorPair(condition) {
      ApplyEavOperatorFilter(q, attributeId, PairOperator(condition), PairOperand(condition));
    } else {
      q.WhereHas(HasRow([attributeId], PlainPred(condition)));
    }
  }

  /** One pass of the scopeWhereEav loop: look the name up and add its condition's clause, if defined. */
  method AddConditionClause(registry: AttributeRegistry, table: seq<AttributeDef>, q: Query, c: (string, Condition))
    requires registry.Valid() && WellFormedDefs(table)
    requires FindByName(Loaded(registry.cache, table), c.0).Some? ==> !ArrayOperator(c.1)
    modifies q, registry
    ensures registry.Valid() && Loaded(registry.cache, table) == Loaded(old(registry.cache), table)
    ensures q.clauses == old(q.clauses) + ConditionClauses(Loaded(registry.cache, table), c)
  {
    var attributeModel := registry.ByName(table, c.0);
    if attributeModel.Some? {
      WhereEavFilter(q, attributeModel.value.id, c.1);
    }
  }

  /** The loop of scopeWhereEav: the clause of each condition whose name is defined, in order. */
  method AddWhereEavClauses(registry: AttributeRegistry, table: seq<AttributeDef>, q: Query, conds: seq<(string, Condition)>)
    requires registry.Valid() && WellFormedDefs(table)
    requires TypedConditions(Loaded(registry.cache, table), conds)
    modifies q, registry
    ensures registry.Valid() && Loaded(registry.cache, table) == Loaded(old(registry.cache), table)
    ensures q.clauses == old(q.clauses) + WhereEavClauses(Loaded(registry.cache, table), conds)
  {
    ghost var defs0, q0 := Loaded(registry.cache, table), q.clauses;
    var i := 0;
    while i < |conds|
      invariant 0 <= i <= |conds|
      invariant registry.Valid() && Loaded(registry.cache, table) == defs0
      invariant q.clauses == q0 + WhereEavClauses(defs0, conds[..i])
    {
      AddConditionClause(registry, table, q, conds[i]);
      WhereEavClausesStep(defs0, q0, conds, i);
      i := i + 1;
    }
    assert conds[..i] == conds;
  }

  /** One pass of the scopeHasAllEavAttributes loop, and the whole of scopeHasEavAttribute. */
  method AddHasClause(registry: AttributeRegistry, table: seq<AttributeDef>, q: Query, name: string)
    requires registry.Valid() && WellFormedDefs(table)
    modifies q, registry
    ensures registry.Valid() && Loaded(registry.cache, table) == Loaded(old(registry.cache), table)
    ensures q.clauses == old(q.clauses) + HasClause(Loaded(registry.cache, table), name)
  {
    var attributeModel := registry.ByName(table, name);
    if attributeModel.Some? {
      q.WhereHas(HasRow([attributeModel.value.id], AnyValue));
    }
  }

  /** The loop of scopeHasAllEavAttributes: the clause of each defined name, in order. */
  method AddHasAllClauses(registry: AttributeRegistry, table: seq<AttributeDef>, q: Query, names: seq<string>)
    requires registry.Valid() && WellFormedDefs(table)
    modifies q, registry
    ensures registry.Valid() && Loaded(registry.cache, table) == Loaded(old(registry.cache), table)
    ensures q.clauses == old(q.clauses) + HasAllClauses(Loaded(registry.cache, table), names)
  {
    ghost var defs0, q0 := Loaded(registry.cache, table), q.clauses;
    var i := 0;
    while i < |names|
      invariant 0 <= i <= |names|
      invariant registry.Valid() && Loaded(registry.cache, table) == defs0
      invariant q.clauses == q0 + HasAllClauses(defs0, names[..i])
    {
      AddHasClause(registry, table, q, names[i]);
      HasAllClausesStep(defs0, q0, names, i);
      i := i + 1;
    }
    assert names[..i] == names;
  }

  /** The lookup loop of getEavAttributes: each row of a known attribute, decoded, under its name. */
  method CollectEav(registry: AttributeRegistry, env: Platform, table: seq<AttributeDef>, snap: seq<Row<Scalar>>)
    returns (m: map<string, Json>)
    requires registry.Valid() && WellFormedDefs(table)
    modifies registry
    ensures registry.Valid() && Loaded(registry.cache, table) == Loaded(old(registry.cache), table)
    ensures m == EavMap(env, Loaded(registry.cache, table), snap)
  {
    ghost var defs0 := Loaded(registry.cache, table);
    m := map[];
    var i := 0;
    while i < |snap|
      invariant 0 <= i <= |snap|
      invariant registry.Valid() && Loaded(registry.cache, table) == defs0
      invariant m == EavMap(env, defs0, snap[..i])
    {
      var d := registry.ById(table, snap[i].attributeId);
      EavMapStep(env, defs0, snap, i);
      if d.Some? {
        m := m[d.value.name := Cast(env, snap[i].value, d)];
      }
      i := i + 1;
    }
    assert snap[..|snap|] == snap;
  }

  /** The lookup loop of getEavAttributesByNames: the same, over the rows whose attribute id is in `ids`. */
  method CollectEavFor(registry: AttributeRegistry, env: Platform, table: seq<AttributeDef>, snap: seq<Row<Scalar>>, ids: seq<nat>)
    returns (m: map<string, Json>)
    requires registry.Valid() && WellFormedDefs(table)
    modifies registry
    ensures registry.Valid() && Loaded(registry.cache, table) == Loaded(old(registry.cache), table)
    ensures m == EavMapFor(env, Loaded(registry.cache, table), snap, ids)
  {
    ghost var defs0 := Loaded(registry.cache, table);
    m := map[];
    var i := 0;
    while i < |snap|
      invariant 0 <= i <= |snap|
      invariant registry.Valid() && Loaded(registry.cache, table) == defs0
      invariant m == EavMapFor(env, defs0, snap[..i], ids)
    {
      EavMapForStep(env, defs0, snap, ids, i);
      if snap[i].attributeId in ids {
        var d := registry.ById(table, snap[i].attributeId);
        if d.Some? {
          m := m[d.value.name := Cast(env, snap[i].value, d)];
        }
      }
      i := i + 1;
    }
    assert snap[..|snap|] == snap;
  }

  class Entity {
    /** `$this->id` and `$this->getMorphClass()`: the owner key of its value rows. */
    const id: nat
    const morphClass: string
    /** `$fillable`: the keys that setAttribute keeps as ordinary attributes. */
    const fillable: seq<string>
    /** The names of the model's relations (`isRelation`). */
    const relations: set<string>
    const env: Platform
    /** The `attributes` table, as `Attribute::all()` returns it. */
    const table: seq<AttributeDef>
    /** The definition cache, shared by every instance of the model class. */
    const registry: AttributeRegistry
    const store: ValueTable
    /** The model's own column values. */
    var attributes: map<string, Json>
    /** The `attributeValues` relation: None until it is loaded. */
    var attributeValues: Option<seq<Row<Scalar>>>

    /** A well-formed cache, table and definitions. */
    ghost predicate Sound()
      reads registry, store
    {
      registry.Valid() && store.Valid() && WellFormedDefs(table)
    }

    /** The loaded collection is in step with the owner's rows in the table. */
    ghost predicate InStep()
      reads this, store
    {
      attributeValues.Some? ==> ColumnRows(env, attributeValues.value) == OwnerRows(store.rows, morphClass, id)
    }

    ghost predicate Valid()
      reads this, registry, store
    {
      Sound() && InStep()
    }

    /** The definitions every lookup sees: the cache once filled, the table before. */
    ghost function Defs(): seq<AttributeDef>
      reads registry
    {
      Loaded(registry.cache, table)
    }

    /** The collection the next read sees: the loaded one, or what loading it would give. */
    ghost function Current(): seq<Row<Scalar>>
      reads this, store
    {
      if attributeValues.Some? then attributeValues.value else LoadRows(OwnerRows(store.rows, morphClass, id))
    }

    /** What getEavAttribute(name) returns in this state. */
    ghost function Get(name: string): Json
      reads this, registry, store
    {
      ValueOf(env, Defs(), Current(), name)
    }

    /** What hasEavAttribute(name) returns in this state. */
    ghost predicate Has(name: string)
      reads this, registry, store
    {
      HasValue(Defs(), Current(), name)
    }

    /** The stored column of this owner's row for `name`, if any. */
    ghost function Stored(name: string): Option<Option<string>>
      reads registry, store
    {
      StoredText(Defs(), store.rows, morphClass, id, name)
    }

    /** `toArray()`: the columns, plus the relation once it is loaded. */
    function ToArray(): map<string, Json>
      reads this
    {
      if attributeValues.Some? then attributes["attribute_values" := JArr(RowsJson(attributeValues.value))]
      else attributes
    }

    constructor (id: nat, morphClass: string, fillable: seq<string>, relations: set<string>, env: Platform,
                 table: seq<AttributeDef>, registry: AttributeRegistry, store: ValueTable, attributes: map<string, Json>)
      requires registry.Valid() && store.Valid() && WellFormedDefs(table)
      ensures Valid()
      ensures this.id == id && this.morphClass == morphClass && this.fillable == fillable && this.relations == relations
      ensures this.env == env && this.table == table && this.registry == registry && this.store == store
      ensures this.attributes == attributes && attributeValues == None
    {
      this.id := id;
      this.morphClass := morphClass;
      this.fillable := fillable;
      this.relations := relations;
      this.env := env;
      this.table := table;
      this.registry := registry;
      this.store := store;
      this.attributes := attributes;
      this.attributeValues := None;
    }

    /** Facts every method relies on: well-formed definitions, a collection in step with one row per attribute. */
    lemma ValidFacts()
      requires Valid()
      ensures WellFormedDefs(Defs())
      ensures ColumnRows(env, Current()) == OwnerRows(store.rows, morphClass, id)
      ensures UniqueAttrs(Current())
    {
      LoadedWellFormed(registry.cache, table);
      if attributeValues.None? {
        ColumnRowsOfLoad(env, OwnerRows(store.rows, morphClass, id));
      }
      InStepUniqueAttrs(env, Current(), store.rows, morphClass, id);
    }

    /** ensureAttributeValuesLoaded: load the relation unless it already is. */
    method EnsureLoaded()
      requires Sound()
      modifies this
      ensures Sound() && attributes == old(attributes)
      ensures attributeValues == Some(old(Current()))
      ensures old(attributeValues).None? || old(InStep()) ==> InStep()
    {
      if attributeValues.None? {
        var rows := store.Relation(morphClass, id);
        ColumnRowsOfLoad(env, rows);
        attributeValues := Some(LoadRows(rows));
      }
    }

    /** `load('attributeValues')`: read the relation again from the table. */
    method Reload()
      requires Sound()
      modifies this
      ensures Valid() && attributes == old(attributes)
      ensures attributeValues == Some(LoadRows(OwnerRows(store.rows, morphClass, id)))
    {
      var rows := store.Relation(morphClass, id);
      ColumnRowsOfLoad(env, rows);
      attributeValues := Some(LoadRows(rows));
    }

    /** The null branch of setEavAttribute: delete the owner's rows of `d` found in the collection, then reload. */
    method ClearValue(key: string, d: AttributeDef)
      requires Valid() && FindByName(Defs(), key) == Some(d)
      modifies this, store
      ensures Valid() && attributes == old(attributes)
      ensures store.rows == RemoveAttrs(old(store.rows), {d.id}, morphClass, id)
      ensures Get(key) == JNull && !Has(key)
      ensures forall name :: Stored(name) == if name == key then None else old(Stored(name))
    {
      ValidFacts();
      var rows0 := store.rows;
      EnsureLoaded();
      var ids := IdsWithAttrs(attributeValues.value, {d.id});
      DeletingCollectedIds(env, attributeValues.value, rows0, {d.id}, morphClass, id);
      if ids != {} {
        var _ := store.DeleteIds(ids);
        Reload();
        RemovedReadsNull(env, Defs(), rows0, {d.id}, morphClass, id, key);
      } else {
        RemoveIdsNone(rows0, ids);
        AbsentReadsNull(env, Defs(), attributeValues.value, {d.id}, key);
      }
      ClearedStored(Defs(), rows0, key, morphClass, id);
    }

    /** The write branch of setEavAttribute: updateOrCreate the row, then update or extend the collection. */
    method WriteValue(key: string, d: AttributeDef, v: Scalar)
      requires Valid() && FindByName(Defs(), key) == Some(d)
      modifies this, store
      ensures Valid() && attributes == old(attributes)
      ensures store.rows == Upsert(old(store.rows), old(store.nextId), d.id, morphClass, id, ColumnText(env, v)).0
      ensures forall name :: Get(name) == if name == key then Cast(env, Some(v), Some(d)) else old(Get(name))
      ensures forall name :: Has(name) == (name == key || old(Has(name)))
      ensures forall name :: Stored(name) == if name == key then Some(Some(ColumnText(env, v))) else old(Stored(name))
    {
      ValidFacts();
      var rows0, next0 := store.rows, store.nextId;
      var saved := store.UpdateOrCreate(d.id, morphClass, id, ColumnText(env, v));
      var wasLoaded := attributeValues.Some?;
      EnsureLoaded();
      var snap := attributeValues.value;
      if wasLoaded {
        PutKeepsInStep(env, snap, rows0, next0, d.id, morphClass, id, v);
      } else {
        ReloadPutInStep(env, store.rows, saved, v, morphClass, id);
      }
      attributeValues := Some(PutSnapshot(snap, saved, v));
      forall name
        ensures Get(name) == if name == key then Cast(env, Some(v), Some(d)) else old(Get(name))
        ensures Has(name) == (name == key || old(Has(name)))
      {
        PutSnapshotValue(env, Defs(), snap, key, saved, v, name);
        if !wasLoaded && name != key {
          ReloadOtherName(rows0, next0, key, d, v, name);
        }
      }
      UpsertStored(Defs(), rows0, next0, key, morphClass, id, ColumnText(env, v));
    }

    /** A name other than the one written reads the same from the table after updateOrCreate. */
    lemma ReloadOtherName(rows0: seq<Row<string>>, next0: nat, key: string, d: AttributeDef, v: Scalar, name: string)
      requires WellFormedDefs(Defs()) && FindByName(Defs(), key) == Some(d) && name != key
      ensures var rows1 := Upsert(rows0, next0, d.id, morphClass, id, ColumnText(env, v)).0;
        && ValueOf(env, Defs(), LoadRows(OwnerRows(rows1, morphClass, id)), name) == ValueOf(env, Defs(), LoadRows(OwnerRows(rows0, morphClass, id)), name)
        && HasValue(Defs(), LoadRows(OwnerRows(rows1, morphClass, id)), name) == HasValue(Defs(), LoadRows(OwnerRows(rows0, morphClass, id)), name)
    {
      var rows1 := Upsert(rows0, next0, d.id, morphClass, id, ColumnText(env, v)).0;
      if FindByName(Defs(), name).Some? {
        DistinctNamesDistinctIds(Defs(), name, key);
        UpsertOtherKeys(rows0, next0, d.id, morphClass, id, ColumnText(env, v), FindByName(Defs(), name).value.id, morphClass, id);
      }
      ReloadReadsAlike(env, Defs(), rows1, rows0, morphClass, id, name);
    }

    /**
      setEavAttribute(key, value): an unknown name raises; null deletes the owner's rows of the
      attribute; any other value is validated, written with updateOrCreate and put into the loaded
      collection. The result is true whenever nothing is raised.
    */
    method SetEavAttribute(key: string, value: Option<string>) returns (r: Result<bool, EavError>)
      requires Valid()
      modifies this, registry, store
      ensures Valid() && Defs() == old(Defs()) && attributes == old(attributes)
      ensures r.Ok? <==> Accepts(env, Defs(), key, value)
      ensures r.Ok? ==> r.value
      ensures r.Err? ==> r.error == Rejection(env, Defs(), key, value)
      ensures r.Err? ==> store.rows == old(store.rows) && store.nextId == old(store.nextId) && attributeValues == old(attributeValues)
      ensures r.Ok? ==> forall name :: Stored(name) == if name == key then StoredOutcome(env, Defs(), key, value) else old(Stored(name))
      ensures r.Ok? && value.None? ==>
        store.rows == RemoveAttrs(old(store.rows), {FindByName(Defs(), key).value.id}, morphClass, id)
      ensures r.Ok? && value.None? ==> Get(key) == JNull && !Has(key)
      ensures r.Ok? && value.Some? ==>
        store.rows == Upsert(old(store.rows), old(store.nextId), FindByName(Defs(), key).value.id, morphClass, id,
                             ColumnText(env, Validate(env, FindByName(Defs(), key).value, value.value).value)).0
      ensures r.Ok? && value.Some? ==> forall name ::
        Get(name) == (if name == key then Cast(env, Some(Validate(env, FindByName(Defs(), key).value, value.value).value), FindByName(Defs(), key))
                      else old(Get(name)))
      ensures r.Ok? && value.Some? ==> forall name :: Has(name) == (name == key || old(Has(name)))
    {
      var found := registry.ByName(table, key);
      if found.None? {
        return Err(UnknownAttribute(key));
      }
      var d := found.value;
      if value.None? {
        ClearValue(key, d);
        return Ok(true);
      }
      var validated := Validate(env, d, value.value);
      if validated.Err? {
        return Err(validated.error);
      }
      WriteValue(key, d, validated.value);
      return Ok(true);
    }

    /**
      setEavAttributes: set each pair in order. The first rejected pair raises, with the earlier
      pairs already written; otherwise every name maps to true.
    */
    method SetEavAttributes(entries: seq<(string, Option<string>)>) returns (r: Result<map<string, bool>, EavError>)
      requires Valid()
      requires forall i, j :: 0 <= i < j < |entries| ==> entries[i].0 != entries[j].0
      modifies this, registry, store
      ensures Valid() && Defs() == old(Defs()) && attributes == old(attributes)
      ensures r.Ok? <==> AllAccepted(env, Defs(), entries)
      ensures r.Ok? ==> (forall n :: n in r.value <==> exists k :: 0 <= k < |entries| && entries[k].0 == n)
      ensures r.Ok? ==> forall n :: n in r.value ==> r.value[n]
      ensures r.Err? ==> exists k :: 0 <= k < |entries| && !Accepts(env, Defs(), entries[k].0, entries[k].1) &&
                           r.error == Rejection(env, Defs(), entries[k].0, entries[k].1) &&
                           AllAccepted(env, Defs(), entries[..k]) &&
                           forall n :: Stored(n) == BulkStored(env, Defs(), old(store.rows), morphClass, id, entries[..k], n)
      ensures r.Ok? ==> forall n :: Stored(n) == BulkStored(env, Defs(), old(store.rows), morphClass, id, entries, n)
    {
      ghost var defs0, rows0 := Defs(), store.rows;
      var result: map<string, bool> := map[];
      var i := 0;
      while i < |entries|
        invariant 0 <= i <= |entries|
        invariant Valid() && Defs() == defs0 && attributes == old(attributes)
        invariant AllAccepted(env, defs0, entries[..i])
        invariant forall n :: n in result <==> exists k :: 0 <= k < i && entries[k].0 == n
        invariant forall n :: n in result ==> result[n]
        invariant forall n :: Stored(n) == BulkStored(env, defs0, rows0, morphClass, id, entries[..i], n)
      {
        var done := SetEntry(entries, i, defs0, rows0);
        if done.Err? {
          return Err(done.error);
        }
        result := result[entries[i].0 := done.value];
        i := i + 1;
      }
      assert entries[..i] == entries;
      return Ok(result);
    }

    /**
      One pass of the setEavAttributes loop: set entry `i` after the entries before it were all
      accepted, so the stored values stay those of the bulk write of the prefix.
    */
    method SetEntry(entries: seq<(string, Option<string>)>, i: nat, ghost defs0: seq<AttributeDef>, ghost rows0: seq<Row<string>>)
      returns (r: Result<bool, EavError>)
      requires Valid() && Defs() == defs0 && i < |entries|
      requires AllAccepted(env, defs0, entries[..i])
      requires forall n :: Stored(n) == BulkStored(env, defs0, rows0, morphClass, id, entries[..i], n)
      modifies this, registry, store
      ensures Valid() && Defs() == defs0 && attributes == old(attributes)
      ensures r.Ok? <==> Accepts(env, defs0, entries[i].0, entries[i].1)
      ensures r.Ok? ==> r.value && AllAccepted(env, defs0, entries[..i + 1])
      ensures r.Ok? ==> forall n :: Stored(n) == BulkStored(env, defs0, rows0, morphClass, id, entries[..i + 1], n)
      ensures r.Err? ==> r.error == Rejection(env, defs0, entries[i].0, entries[i].1)
      ensures r.Err? ==> store.rows == old(store.rows) && store.nextId == old(store.nextId) && attributeValues == old(attributeValues)
      ensures r.Err? ==> forall n :: Stored(n) == BulkStored(env, defs0, rows0, morphClass, id, entries[..i], n)
    {
      var key := entries[i].0;
      assert entries[..i + 1][..i] == entries[..i] && entries[..i + 1][i] == entries[i];
      label Step:
      r := SetEavAttribute(key, entries[i].1);
      if r.Ok? {
        AllAcceptedNext(env, defs0, entries, i);
        forall n ensures Stored(n) == BulkStored(env, defs0, rows0, morphClass, id, entries[..i + 1], n) {
          assert Stored(n) == if n == key then StoredOutcome(env, defs0, key, entries[i].1) else old@Step(Stored(n));
        }
      }
    }

    /** getEavAttributes: load the collection, then decode each row of a known attribute by name. */
    method GetEavAttributes() returns (m: map<string, Json>)
      requires Valid()
      modifies this, registry
      ensures Valid() && Defs() == old(Defs()) && attributes == old(attributes)
      ensures attributeValues == Some(old(Current()))
      ensures m == EavMap(env, Defs(), Current())
      ensures forall name :: name in m <==> Has(name)
      ensures forall name :: name in m ==> m[name] == Get(name)
    {
      ValidFacts();
      EnsureLoaded();
      m := CollectEav(registry, env, table, attributeValues.value);
      EavMapAgrees(env, Defs(), attributeValues.value);
    }

    /** getEavAttribute: null for an unknown name (nothing loaded); otherwise the decoded first row of it. */
    method GetEavAttribute(name: string) returns (r: Json)
      requires Valid()
      modifies this, registry
      ensures Valid() && Defs() == old(Defs()) && attributes == old(attributes) && Current() == old(Current())
      ensures FindByName(Defs(), name).None? ==> r == JNull && attributeValues == old(attributeValues)
      ensures FindByName(Defs(), name).Some? ==> attributeValues == Some(old(Current()))
      ensures r == Get(name)
    {
      var d := registry.ByName(table, name);
      if d.None? {
        return JNull;
      }
      EnsureLoaded();
      var x := FirstWithAttr(attributeValues.value, d.value.id);
      r := if x.Some? then Cast(env, x.value.value, d) else JNull;
    }

    /** getEavAttributesByNames: the rows whose attribute is one of the named ones, decoded by name. */
    method GetEavAttributesByNames(names: seq<string>) returns (m: map<string, Json>)
      requires Valid()
      modifies this, registry
      ensures Valid() && Defs() == old(Defs()) && attributes == old(attributes)
      ensures attributeValues == Some(old(Current()))
      ensures m == EavMapFor(env, Defs(), Current(), IdsNamed(Defs(), names))
      ensures m == map k | k in EavMap(env, Defs(), Current()) && k in names :: EavMap(env, Defs(), Current())[k]
      ensures forall k :: k in m ==> k in names
    {
      ValidFacts();
      EnsureLoaded();
      registry.Initialize(table);
      var ids := IdsNamed(registry.cache.value, names);
      m := CollectEavFor(registry, env, table, attributeValues.value, ids);
      ByNamesRestricts(env, Defs(), attributeValues.value, names);
    }

    /** hasEavAttribute: false for an unknown name (nothing loaded); otherwise whether a row of it is loaded. */
    method HasEavAttribute(name: string) returns (b: bool)
      requires Valid()
      modifies this, registry
      ensures Valid() && Defs() == old(Defs()) && attributes == old(attributes) && Current() == old(Current())
      ensures FindByName(Defs(), name).None? ==> !b && attributeValues == old(attributeValues)
      ensures b == Has(name)
    {
      var d := registry.ByName(table, name);
      if d.None? {
        return false;
      }
      EnsureLoaded();
      b := FirstWithAttr(attributeValues.value, d.value.id).Some?;
    }

    /**
      deleteEavAttribute: false for an unknown name or when no row of it is loaded; otherwise the
      rows go, the collection is reloaded and the result is true.
    */
    method DeleteEavAttribute(name: string) returns (b: bool)
      requires Valid()
      modifies this, registry, store
      ensures Valid() && Defs() == old(Defs()) && attributes == old(attributes)
      ensures b == old(Has(name))
      ensures FindByName(Defs(), name).None? ==> store.rows == old(store.rows) && attributeValues == old(attributeValues)
      ensures FindByName(Defs(), name).Some? ==>
        store.rows == RemoveAttrs(old(store.rows), {FindByName(Defs(), name).value.id}, morphClass, id)
      ensures Get(name) == JNull && !Has(name)
      ensures forall n :: Stored(n) == if n == name then None else old(Stored(n))
    {
      ValidFacts();
      var d := registry.ByName(table, name);
      if d.None? {
        return false;
      }
      var a := d.value.id;
      LoadedRowsCounted(Current(), store.rows, a);
      ClearedStored(Defs(), store.rows, name, morphClass, id);
      var count := DeleteCollected({a});
      b := count > 0;
    }

    /**
      deleteEavAttributes: the owner's rows of every defined attribute among `names` are deleted
      and the count of deleted rows returned; with no defined name, nothing is loaded or deleted.
    */
    method DeleteEavAttributes(names: seq<string>) returns (count: nat)
      requires Valid()
      modifies this, registry, store
      ensures Valid() && Defs() == old(Defs()) && attributes == old(attributes)
      ensures store.rows == RemoveAttrs(old(store.rows), AttrSet(IdsNamed(Defs(), names)), morphClass, id)
      ensures count == CountAttrs(OwnerRows(old(store.rows), morphClass, id), AttrSet(IdsNamed(Defs(), names)))
      ensures IdsNamed(Defs(), names) == [] ==> count == 0 && attributeValues == old(attributeValues)
      ensures forall n :: Stored(n) == if n in names then None else old(Stored(n))
      ensures forall n :: n in names ==> Get(n) == JNull && !Has(n)
    {
      ValidFacts();
      registry.Initialize(table);
      var attributeIds := IdsNamed(registry.cache.value, names);
      var attrs := AttrSet(attributeIds);
      assert attributeIds == IdsNamed(Defs(), names);
      ClearedStoredMany(Defs(), store.rows, names, morphClass, id);
      forall n | n in names ensures FindByName(Defs(), n).Some? ==> FindByName(Defs(), n).value.id in attrs {
        NamedIdListed(Defs(), names, n);
      }
      if attributeIds == [] {
        assert attrs == {};
        RemoveAttrsNone(store.rows, morphClass, id);
        RemoveAttrsCount(store.rows, attrs, morphClass, id);
        forall n | n in names ensures Get(n) == JNull && !Has(n) {
          UndefinedReadsNull(env, Defs(), Current(), n);
        }
        return 0;
      }
      count := DeleteCollected(attrs);
    }

    /**
      The part of deleteEavAttributes after the ids are known: load the collection, collect the ids
      of its rows of `attrs`, delete them and reload when something went.
    */
    method DeleteCollected(attrs: set<nat>) returns (count: nat)
      requires Valid()
      modifies this, store
      ensures Valid() && attributes == old(attributes)
      ensures store.rows == RemoveAttrs(old(store.rows), attrs, morphClass, id)
      ensures count == CountAttrs(OwnerRows(old(store.rows), morphClass, id), attrs)
      ensures forall n :: FindByName(Defs(), n).Some? && FindByName(Defs(), n).value.id in attrs ==> Get(n) == JNull && !Has(n)
    {
      ValidFacts();
      var rows0 := store.rows;
      RemoveAttrsCount(rows0, attrs, morphClass, id);
      EnsureLoaded();
      var snap := attributeValues.value;
      var toDelete := IdsWithAttrs(snap, attrs);
      DeletingCollectedIds(env, snap, rows0, attrs, morphClass, id);
      if toDelete == {} {
        RemoveIdsNone(rows0, toDelete);
        forall n | FindByName(Defs(), n).Some? && FindByName(Defs(), n).value.id in attrs ensures Get(n) == JNull && !Has(n) {
          AbsentReadsNull(env, Defs(), snap, attrs, n);
        }
        return 0;
      }
      count := store.DeleteIds(toDelete);
      DeletedSome(snap, rows0, attrs);
      if count > 0 {
        Reload();
        forall n | FindByName(Defs(), n).Some? && FindByName(Defs(), n).value.id in attrs ensures Get(n) == JNull && !Has(n) {
          RemovedReadsNull(env, Defs(), rows0, attrs, morphClass, id, n);
        }
      }
    }

    /**
      deleteAllEavAttributes: every row of this owner is deleted, the count returned, and the
      loaded collection is empty afterwards.
    */
    method DeleteAllEavAttributes() returns (count: nat)
      requires Valid()
      modifies this, store
      ensures Valid() && attributes == old(attributes)
      ensures store.rows == RemoveOwned(old(store.rows), morphClass, id)
      ensures count == |OwnerRows(old(store.rows), morphClass, id)|
      ensures attributeValues == Some([])
      ensures forall n :: Stored(n) == None
      ensures forall n :: Get(n) == JNull && !Has(n)
    {
      ValidFacts();
      EnsureLoaded();
      count := store.DeleteOwned(morphClass, id);
      RemoveOwnedLeavesNone(old(store.rows), morphClass, id);
      if count > 0 {
        Reload();
      }
      forall n ensures Stored(n) == None {
        if FindByName(Defs(), n).Some? {
          FirstKeyIsOwnersFirst(store.rows, FindByName(Defs(), n).value.id, morphClass, id);
        }
      }
    }

    /**
      toArrayWithEav: the serialised model with every dynamic value merged over it and the
      `attribute_values` relation removed.
    */
    method ToArrayWithEav() returns (data: map<string, Json>)
      requires Valid()
      modifies this, registry
      ensures Valid() && Defs() == old(Defs()) && attributes == old(attributes)
      ensures attributeValues == Some(old(Current()))
      ensures data == WithEav(old(ToArray()), EavMap(env, Defs(), Current()))
      ensures "attribute_values" !in data
      ensures forall n :: n != "attribute_values" && Has(n) ==> n in data && data[n] == Get(n)
      ensures forall k :: k in attributes && k != "attribute_values" && !Has(k) ==> k in data && data[k] == attributes[k]
    {
      data := ToArray();
      var eav := GetEavAttributes();
      data := WithEav(data, eav);
    }

    /**
      castEavValue: decode a loaded row by the given definition, or by the definition its attribute
      id names when none is given; without a definition the raw value comes back.
    */
    method CastEavValue(x: Row<Scalar>, attribute: Option<AttributeDef>) returns (r: Json)
      requires Sound()
      modifies registry
      ensures Sound() && Defs() == old(Defs())
      ensures attribute.Some? ==> r == Cast(env, x.value, attribute)
      ensures attribute.None? ==> r == Cast(env, x.value, FindById(Defs(), x.attributeId))
      ensures attribute.None? && FindById(Defs(), x.attributeId).None? ==> r == Raw(x.value)
    {
      var d := attribute;
      if d.None? {
        d := registry.ById(table, x.attributeId);
      }
      r := Cast(env, x.value, d);
    }

    /**
      getAttribute: a static attribute that is set wins; otherwise, unless the key names a relation,
      the dynamic attribute of that name is read.
    */
    method GetAttribute(key: string) returns (r: Json)
      requires Valid()
      modifies this, registry
      ensures Valid() && Defs() == old(Defs()) && attributes == old(attributes) && Current() == old(Current())
      ensures key in attributes && attributes[key] != JNull ==> r == attributes[key] && attributeValues == old(attributeValues)
      ensures key in relations && (key !in attributes || attributes[key] == JNull) ==> r == JNull && attributeValues == old(attributeValues)
      ensures key !in relations && (key !in attributes || attributes[key] == JNull) ==> r == old(Get(key))
    {
      var parent := if key in attributes then attributes[key] else JNull;
      if parent == JNull && key !in relations {
        r := GetEavAttribute(key);
      } else {
        r := parent;
      }
    }

    /**
      setAttribute: a fillable key is an ordinary attribute; any other key is a dynamic attribute and
      is written with setEavAttribute, whose error propagates.
    */
    method SetAttribute(key: string, value: Option<string>) returns (r: Result<(), EavError>)
      requires Valid()
      modifies this, registry, store
      ensures Valid() && Defs() == old(Defs())
      ensures key in fillable ==> r.Ok? && attributes == old(attributes)[key := if value.Some? then JStr(value.value) else JNull]
      ensures key in fillable ==> store.rows == old(store.rows) && attributeValues == old(attributeValues)
      ensures key !in fillable ==> attributes == old(attributes)
      ensures key !in fillable ==> (r.Ok? <==> Accepts(env, Defs(), key, value))
      ensures key !in fillable && r.Err? ==> r.error == Rejection(env, Defs(), key, value) && store.rows == old(store.rows)
      ensures key !in fillable && r.Err? ==> store.nextId == old(store.nextId) && attributeValues == old(attributeValues)
      ensures key !in fillable && r.Ok? ==> forall n :: Stored(n) == if n == key then StoredOutcome(env, Defs(), key, value) else old(Stored(n))
      ensures key !in fillable && r.Ok? && value.None? ==> Get(key) == JNull && !Has(key)
      ensures key !in fillable && r.Ok? && value.Some? ==> forall name ::
        Get(name) == (if name == key then Cast(env, Some(Validate(env, FindByName(Defs(), key).value, value.value).value), FindByName(Defs(), key))
                      else old(Get(name)))
      ensures key !in fillable && r.Ok? && value.Some? ==> forall name :: Has(name) == (name == key || old(Has(name)))
    {
      if key !in fillable {
        var done := SetEavAttribute(key, value);
        if done.Err? {
          return Err(done.error);
        }
        return Ok(());
      }
      attributes := attributes[key := if value.Some? then JStr(value.value) else JNull];
      r := Ok(());
    }

    /**
      scopeWhereEav: one `whereHas` per condition whose name is defined, in order; an
      `{operator, value}` pair with both set goes through the operator filter, anything else is an
      equality on the value column.
    */
    method ScopeWhereEav(q: Query, conds: seq<(string, Condition)>)
      requires Sound() && TypedConditions(Defs(), conds)
      modifies q, registry
      ensures Sound() && Defs() == old(Defs())
      ensures q.clauses == old(q.clauses) + WhereEavClauses(Defs(), conds)
      ensures forall rows: seq<Row<string>>, t: string, e: nat :: Matches(rows, t, e, q.clauses) <==>
                Matches(rows, t, e, old(q.clauses)) && forall c :: c in conds ==> ConditionHolds(Defs(), rows, t, e, c)
    {
      ghost var defs0, q0 := Defs(), q.clauses;
      AddWhereEavClauses(registry, table, q, conds);
      forall rows: seq<Row<string>>, t: string, e: nat
        ensures Matches(rows, t, e, q.clauses) <==>
                Matches(rows, t, e, q0) && forall c :: c in conds ==> ConditionHolds(defs0, rows, t, e, c)
      {
        MatchesConcat(rows, t, e, q0, WhereEavClauses(defs0, conds));
        WhereEavMeaning(defs0, conds, rows, t, e);
      }
    }

    /** scopeHasEavAttribute: owners with a row of the named attribute; an undefined name adds nothing. */
    method ScopeHasEavAttribute(q: Query, name: string)
      requires Sound()
      modifies q, registry
      ensures Sound() && Defs() == old(Defs())
      ensures q.clauses == old(q.clauses) + HasClause(Defs(), name)
      ensures forall rows: seq<Row<string>>, t: string, e: nat :: Matches(rows, t, e, q.clauses) <==>
                Matches(rows, t, e, old(q.clauses)) && HasNamed(Defs(), rows, t, e, name)
    {
      ghost var q0 := q.clauses;
      AddHasClause(registry, table, q, name);
      forall rows: seq<Row<string>>, t: string, e: nat
        ensures Matches(rows, t, e, q.clauses) <==> Matches(rows, t, e, q0) && HasNamed(Defs(), rows, t, e, name)
      {
        MatchesConcat(rows, t, e, q0, HasClause(Defs(), name));
        HasClauseMeaning(Defs(), name, rows, t, e);
      }
    }

    /** scopeHasAnyEavAttribute: owners with a row of any defined attribute among `names`. */
    method ScopeHasAnyEavAttribute(q: Query, names: seq<string>)
      requires Sound()
      modifies q, registry
      ensures Sound() && Defs() == old(Defs())
      ensures q.clauses == old(q.clauses) + HasAnyClauses(Defs(), names)
      ensures IdsNamed(Defs(), names) != [] ==> forall rows: seq<Row<string>>, t: string, e: nat ::
                Matches(rows, t, e, q.clauses) <==>
                (Matches(rows, t, e, old(q.clauses)) &&
                 exists i :: 0 <= i < |rows| && Owns(rows[i], t, e) &&
                   exists d :: d in Defs() && d.name in names && d.id == rows[i].attributeId)
    {
      ghost var q0 := q.clauses;
      registry.Initialize(table);
      var attributeIds := IdsNamed(registry.cache.value, names);
      if attributeIds == [] {
        return;
      }
      q.WhereHas(HasRow(attributeIds, AnyValue));
      forall rows: seq<Row<string>>, t: string, e: nat
        ensures Matches(rows, t, e, q.clauses) <==>
                (Matches(rows, t, e, q0) &&
                 exists i :: 0 <= i < |rows| && Owns(rows[i], t, e) &&
                   exists d :: d in Defs() && d.name in names && d.id == rows[i].attributeId)
      {
        MatchesConcat(rows, t, e, q0, HasAnyClauses(Defs(), names));
        HasAnyMeaning(Defs(), names, rows, t, e);
      }
    }

    /** scopeHasAllEavAttributes: owners with a row of every defined attribute among `names`. */
    method ScopeHasAllEavAttributes(q: Query, names: seq<string>)
      requires Sound()
      modifies q, registry
      ensures Sound() && Defs() == old(Defs())
      ensures q.clauses == old(q.clauses) + HasAllClauses(Defs(), names)
      ensures forall rows: seq<Row<string>>, t: string, e: nat :: Matches(rows, t, e, q.clauses) <==>
                Matches(rows, t, e, old(q.clauses)) && forall k :: 0 <= k < |names| ==> HasNamed(Defs(), rows, t, e, names[k])
    {
      ghost var q0 := q.clauses;
      AddHasAllClauses(registry, table, q, names);
      forall rows: seq<Row<string>>, t: string, e: nat
        ensures Matches(rows, t, e, q.clauses) <==>
                Matches(rows, t, e, q0) && forall k :: 0 <= k < |names| ==> HasNamed(Defs(), rows, t, e, names[k])
      {
        MatchesConcat(rows, t, e, q0, HasAllClauses(Defs(), names));
        HasAllMeaning(Defs(), names, rows, t, e);
      }
    }

    /** A collection in step with the table holds a row of `a` exactly when the owner has rows of it to delete. */
    lemma LoadedRowsCounted(snap: seq<Row<Scalar>>, rows: seq<Row<string>>, a: nat)
      requires ColumnRows(env, snap) == OwnerRows(rows, morphClass, id)
      ensures FirstWithAttr(snap, a).Some? <==> CountAttrs(OwnerRows(rows, morphClass, id), {a}) > 0
    {
      IdsWithAttrEmpty(snap, a);
      var o := OwnerRows(rows, morphClass, id);
      if IdsWithAttrs(snap, {a}) != {} {
        DeletedSome(snap, rows, {a});
      } else {
        forall i | 0 <= i < |o| ensures o[i].attributeId !in {a} {
          assert o[i] == ColumnRow(env, snap[i]);
        }
        CountAttrsNone(o, {a});
      }
    }

    /** A non-empty id list from a collection in step with the table deletes at least one row. */
    lemma DeletedSome(snap: seq<Row<Scalar>>, rows: seq<Row<string>>, attrs: set<nat>)
      requires ColumnRows(env, snap) == OwnerRows(rows, morphClass, id) && IdsWithAttrs(snap, attrs) != {}
      ensures CountAttrs(OwnerRows(rows, morphClass, id), attrs) > 0
      ensures |rows| - |RemoveAttrs(rows, attrs, morphClass, id)| > 0
    {
      var x :| x in IdsWithAttrs(snap, attrs);
      var i :| 0 <= i < |snap| && snap[i].attributeId in attrs && snap[i].id == x;
      var o := OwnerRows(rows, morphClass, id);
      assert o[i] == ColumnRow(env, snap[i]);
      CountAttrsPositive(o, attrs, i);
      RemoveAttrsCount(rows, attrs, morphClass, id);
    }
  }
}
