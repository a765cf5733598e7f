/**
  What the read side of the engine returns for an owner: `getEavAttribute`, `hasEavAttribute`,
  `getEavAttributes`, `getEavAttributesByNames` and `toArrayWithEav`, stated on the owner's loaded
  collection and on the table; and how a successful write or delete changes them.
*/
module EavRead {
  import opened Wrappers
  import opened Json
  import opened EavTypes
  import opened EavRegistry
  import opened EavCodec
  import opened EavRows

  /** getEavAttribute(name) on the loaded collection `snap`: the first row of that attribute, decoded. */
  function ValueOf(env: Platform, defs: seq<AttributeDef>, snap: seq<Row<Scalar>>, name: string): Json {
    match FindByName(defs, name)
    case None => JNull
    case Some(d) =>
      match FirstWithAttr(snap, d.id)
      case None => JNull
      case Some(x) => Cast(env, x.value, Some(d))
  }

  /** hasEavAttribute(name): the name is defined and the collection has a row of it. */
  predicate HasValue(defs: seq<AttributeDef>, snap: seq<Row<Scalar>>, name: string) {
    FindByName(defs, name).Some? && FirstWithAttr(snap, FindByName(defs, name).value.id).Some?
  }

  /** One pass of the getEavAttributes loop: rows of unknown attributes are skipped. */
  function PutEntry(env: Platform, defs: seq<AttributeDef>, m: map<string, Json>, x: Row<Scalar>): map<string, Json> {
    match FindById(defs, x.attributeId)
    case None => m
    case Some(d) => m[d.name := Cast(env, x.value, Some(d))]
  }

  /** getEavAttributes: every row of a known attribute, in collection order, later rows overriding. */
  function EavMap(env: Platform, defs: seq<AttributeDef>, snap: seq<Row<Scalar>>): map<string, Json>
    decreases |snap|
  {
    if snap == [] then map[]
    else PutEntry(env, defs, EavMap(env, defs, snap[..|snap| - 1]), snap[|snap| - 1])
  }

  /** getEavAttributesByNames: the same, restricted to rows whose attribute id is in `ids`. */
  function EavMapFor(env: Platform, defs: seq<AttributeDef>, snap: seq<Row<Scalar>>, ids: seq<nat>): map<string, Json>
    decreases |snap|
  {
    if snap == [] then map[]
    else
      var m := EavMapFor(env, defs, snap[..|snap| - 1], ids);
      var x := snap[|snap| - 1];
      if x.attributeId in ids then PutEntry(env, defs, m, x) else m
  }

  /** One more row of the collection is one more pass of the getEavAttributes loop. */
  lemma EavMapStep(env: Platform, defs: seq<AttributeDef>, snap: seq<Row<Scalar>>, i: nat)
    requires i < |snap|
    ensures EavMap(env, defs, snap[..i + 1]) == PutEntry(env, defs, EavMap(env, defs, snap[..i]), snap[i])
  {
    assert snap[..i + 1][..i] == snap[..i];
  }

  /** One more row of the collection is one more pass of the getEavAttributesByNames loop. */
  lemma EavMapForStep(env: Platform, defs: seq<AttributeDef>, snap: seq<Row<Scalar>>, ids: seq<nat>, i: nat)
    requires i < |snap|
    ensures EavMapFor(env, defs, snap[..i + 1], ids) ==
            if snap[i].attributeId in ids then PutEntry(env, defs, EavMapFor(env, defs, snap[..i], ids), snap[i])
            else EavMapFor(env, defs, snap[..i], ids)
  {
    assert snap[..i + 1][..i] == snap[..i];
  }

  /** toArrayWithEav: dynamic values override same-named static keys, and `attribute_values` goes. */
  function WithEav(data: map<string, Json>, eav: map<string, Json>): (r: map<string, Json>)
    ensures "attribute_values" !in r
    ensures forall k :: k in r <==> (k in data || k in eav) && k != "attribute_values"
    ensures forall k :: k in eav && k != "attribute_values" ==> r[k] == eav[k]
    ensures forall k :: k in data && k !in eav && k != "attribute_values" ==> r[k] == data[k]
  {
    (data + eav) - {"attribute_values"}
  }

  /** The stored `value` column of the owner's row for `name`; None when undefined or absent. */
  function StoredText(defs: seq<AttributeDef>, rows: seq<Row<string>>, t: string, e: nat, name: string): Option<Option<string>> {
    match FindByName(defs, name)
    case None => None
    case Some(d) =>
      match FirstKey(rows, d.id, t, e)
      case None => None
      case Some(r) => Some(r.value)
  }

  /** setEavAttribute accepts the pair: the name is defined and a non-null value validates. */
  predicate Accepts(env: Platform, defs: seq<AttributeDef>, name: string, value: Option<string>) {
    FindByName(defs, name).Some? && (value.None? || Validate(env, FindByName(defs, name).value, value.value).Ok?)
  }

  /** The error setEavAttribute raises for a pair it does not accept. */
  function Rejection(env: Platform, defs: seq<AttributeDef>, name: string, value: Option<string>): (err: EavError)
    requires !Accepts(env, defs, name, value)
    ensures FindByName(defs, name).None? ==> err == UnknownAttribute(name)
    ensures FindByName(defs, name).Some? ==> Validate(env, FindByName(defs, name).value, value.value) == Err(err)
  {
    if FindByName(defs, name).None? then UnknownAttribute(name)
    else Validate(env, FindByName(defs, name).value, value.value).error
  }

  /** The column text an accepted pair leaves in the table: no row for null, the validated text otherwise. */
  function StoredOutcome(env: Platform, defs: seq<AttributeDef>, name: string, value: Option<string>): Option<Option<string>>
    requires Accepts(env, defs, name, value)
  {
    if value.None? then None
    else Some(Some(ColumnText(env, Validate(env, FindByName(defs, name).value, value.value).value)))
  }

  /** Every pair of a setEavAttributes call is accepted. */
  predicate AllAccepted(env: Platform, defs: seq<AttributeDef>, entries: seq<(string, Option<string>)>) {
    forall k :: 0 <= k < |entries| ==> Accepts(env, defs, entries[k].0, entries[k].1)
  }

  /** Accepting the next pair extends an accepted prefix. */
  lemma AllAcceptedNext(env: Platform, defs: seq<AttributeDef>, entries: seq<(string, Option<string>)>, i: nat)
    requires i < |entries| && AllAccepted(env, defs, entries[..i]) && Accepts(env, defs, entries[i].0, entries[i].1)
    ensures AllAccepted(env, defs, entries[..i + 1])
  {
    var next := entries[..i + 1];
    forall k | 0 <= k < i + 1 ensures Accepts(env, defs, next[k].0, next[k].1) {
      if k < i {
        assert next[k] == entries[..i][k];
      }
    }
  }

  /** The stored column of `name` after the pairs of `entries` are set one by one over `rows`. */
  ghost function BulkStored(env: Platform, defs: seq<AttributeDef>, rows: seq<Row<string>>, t: string, e: nat,
                            entries: seq<(string, Option<string>)>, name: string): Option<Option<string>>
    requires AllAccepted(env, defs, entries)
    decreases |entries|
  {
    if entries == [] then StoredText(defs, rows, t, e, name)
    else
      var last := entries[|entries| - 1];
      if last.0 == name then StoredOutcome(env, defs, name, last.1)
      else BulkStored(env, defs, rows, t, e, entries[..|entries| - 1], name)
  }

  /** The last pair that names an attribute decides its stored value. */
  lemma {:induction false} BulkStoredLastWins(env: Platform, defs: seq<AttributeDef>, rows: seq<Row<string>>, t: string, e: nat,
                                              entries: seq<(string, Option<string>)>, name: string, k: nat)
    requires AllAccepted(env, defs, entries) && k < |entries| && entries[k].0 == name
    requires forall j :: k < j < |entries| ==> entries[j].0 != name
    ensures BulkStored(env, defs, rows, t, e, entries, name) == StoredOutcome(env, defs, name, entries[k].1)
    decreases |entries|
  {
    var n := |entries| - 1;
    if k < n {
      var init := entries[..n];
      assert forall j :: 0 <= j < |init| ==> init[j] == entries[j];
      assert AllAccepted(env, defs, init);
      assert BulkStored(env, defs, rows, t, e, entries, name) == BulkStored(env, defs, rows, t, e, init, name) by {
        assert entries[n].0 != name;
      }
      BulkStoredLastWins(env, defs, rows, t, e, init, name, k);
    }
  }

  /** A name no pair mentions keeps the value the table held for it. */
  lemma {:induction false} BulkStoredUntouched(env: Platform, defs: seq<AttributeDef>, rows: seq<Row<string>>, t: string, e: nat,
                                               entries: seq<(string, Option<string>)>, name: string)
    requires AllAccepted(env, defs, entries)
    requires forall k :: 0 <= k < |entries| ==> entries[k].0 != name
    ensures BulkStored(env, defs, rows, t, e, entries, name) == StoredText(defs, rows, t, e, name)
    decreases |entries|
  {
    if entries != [] {
      var init := entries[..|entries| - 1];
      assert forall k :: 0 <= k < |init| ==> init[k] == entries[k];
      BulkStoredUntouched(env, defs, rows, t, e, init, name);
    }
  }

  /**
    With distinct names, setting the pairs one by one leaves each named attribute with its own
    pair's outcome and every other name as it was.
  */
  lemma BulkStoredMeaning(env: Platform, defs: seq<AttributeDef>, rows: seq<Row<string>>, t: string, e: nat,
                          entries: seq<(string, Option<string>)>, name: string)
    requires AllAccepted(env, defs, entries)
    requires forall i, j :: 0 <= i < j < |entries| ==> entries[i].0 != entries[j].0
    ensures forall k :: 0 <= k < |entries| && entries[k].0 == name ==>
              BulkStored(env, defs, rows, t, e, entries, name) == StoredOutcome(env, defs, name, entries[k].1)
    ensures (forall k :: 0 <= k < |entries| ==> entries[k].0 != name) ==>
              BulkStored(env, defs, rows, t, e, entries, name) == StoredText(defs, rows, t, e, name)
  {
    forall k | 0 <= k < |entries| && entries[k].0 == name
      ensures BulkStored(env, defs, rows, t, e, entries, name) == StoredOutcome(env, defs, name, entries[k].1)
    {
      BulkStoredLastWins(env, defs, rows, t, e, entries, name, k);
    }
    if forall k :: 0 <= k < |entries| ==> entries[k].0 != name {
      BulkStoredUntouched(env, defs, rows, t, e, entries, name);
    }
  }

  // ---------------------------------------------------------------------------------------------
  // getEavAttributes and getEavAttributesByNames

  /** getEavAttributes has exactly the names of the defined attributes that have a row. */
  lemma {:induction false} EavMapKeys(env: Platform, defs: seq<AttributeDef>, snap: seq<Row<Scalar>>)
    ensures forall k :: k in EavMap(env, defs, snap) <==>
      exists i :: 0 <= i < |snap| && FindById(defs, snap[i].attributeId).Some? && FindById(defs, snap[i].attributeId).value.name == k
    decreases |snap|
  {
    if snap != [] {
      var p := snap[..|snap| - 1];
      EavMapKeys(env, defs, p);
      assert forall i :: 0 <= i < |p| ==> p[i] == snap[i];
      forall k | k in EavMap(env, defs, snap)
        ensures exists i :: 0 <= i < |snap| && FindById(defs, snap[i].attributeId).Some? && FindById(defs, snap[i].attributeId).value.name == k
      {
        if k !in EavMap(env, defs, p) {
          assert FindById(defs, snap[|snap| - 1].attributeId).Some?;
        }
      }
    }
  }

  /** Dropping the last row of a collection with one row per attribute keeps it so, without that row's attribute. */
  lemma UniqueAttrsInit<V>(snap: seq<Row<V>>)
    requires UniqueAttrs(snap) && snap != []
    ensures UniqueAttrs(snap[..|snap| - 1])
    ensures FirstWithAttr(snap[..|snap| - 1], snap[|snap| - 1].attributeId).None?
  {
    var p := snap[..|snap| - 1];
    forall i, j | 0 <= i < j < |p| ensures p[i].attributeId != p[j].attributeId {
      assert p[i] == snap[i] && p[j] == snap[j];
    }
    forall y | y in p ensures y.attributeId != snap[|snap| - 1].attributeId {
      var i :| 0 <= i < |p| && p[i] == y;
      assert snap[i] == y;
    }
  }

  /** One row of a fresh attribute, put into a map that agrees with the reads at `name`, keeps it agreeing. */
  lemma PutEntryAgrees(env: Platform, defs: seq<AttributeDef>, m: map<string, Json>, p: seq<Row<Scalar>>, x: Row<Scalar>, name: string)
    requires WellFormedDefs(defs) && FirstWithAttr(p, x.attributeId).None?
    requires name in m <==> HasValue(defs, p, name)
    requires name in m ==> m[name] == ValueOf(env, defs, p, name)
    ensures name in PutEntry(env, defs, m, x) <==> HasValue(defs, p + [x], name)
    ensures name in PutEntry(env, defs, m, x) ==> PutEntry(env, defs, m, x)[name] == ValueOf(env, defs, p + [x], name)
  {
    var found := FindById(defs, x.attributeId);
    if found.Some? {
      FindByOwnName(defs, found.value);
    }
    match FindByName(defs, name)
    case None =>
    case Some(dn) =>
      FirstWithAttrAppend(p, x, dn.id);
      if x.attributeId == dn.id {
        FindByOwnId(defs, dn);
      }
  }

  lemma {:induction false} EavMapAgreesAt(env: Platform, defs: seq<AttributeDef>, snap: seq<Row<Scalar>>, name: string)
    requires WellFormedDefs(defs) && UniqueAttrs(snap)
    ensures name in EavMap(env, defs, snap) <==> HasValue(defs, snap, name)
    ensures name in EavMap(env, defs, snap) ==> EavMap(env, defs, snap)[name] == ValueOf(env, defs, snap, name)
    decreases |snap|
  {
    if snap != [] {
      var p, x := snap[..|snap| - 1], snap[|snap| - 1];
      assert snap == p + [x];
      UniqueAttrsInit(snap);
      EavMapAgreesAt(env, defs, p, name);
      PutEntryAgrees(env, defs, EavMap(env, defs, p), p, x, name);
    }
  }

  /**
    When a collection has one row per attribute, getEavAttributes agrees with getEavAttribute:
    it holds a name exactly when hasEavAttribute does, bound to the same decoded value.
  */
  lemma EavMapAgrees(env: Platform, defs: seq<AttributeDef>, snap: seq<Row<Scalar>>)
    requires WellFormedDefs(defs) && UniqueAttrs(snap)
    ensures forall name :: name in EavMap(env, defs, snap) <==> HasValue(defs, snap, name)
    ensures forall name :: name in EavMap(env, defs, snap) ==> EavMap(env, defs, snap)[name] == ValueOf(env, defs, snap, name)
  {
    forall name
      ensures (name in EavMap(env, defs, snap) <==> HasValue(defs, snap, name))
      ensures name in EavMap(env, defs, snap) ==> EavMap(env, defs, snap)[name] == ValueOf(env, defs, snap, name)
    {
      EavMapAgreesAt(env, defs, snap, name);
    }
  }

  /** An attribute id belongs to the named ids exactly when its definition's name is among the names. */
  lemma IdsNamedOf(defs: seq<AttributeDef>, names: seq<string>, d: AttributeDef)
    requires WellFormedDefs(defs) && d in defs
    ensures d.id in IdsNamed(defs, names) <==> d.name in names
  {
    if d.id in IdsNamed(defs, names) {
      var d' :| d' in defs && d'.name in names && d'.id == d.id;
      var i :| 0 <= i < |defs| && defs[i] == d;
      var j :| 0 <= j < |defs| && defs[j] == d';
      assert i == j;
    }
  }

  /** getEavAttributesByNames is getEavAttributes restricted to the requested names. */
  lemma {:induction false} ByNamesRestricts(env: Platform, defs: seq<AttributeDef>, snap: seq<Row<Scalar>>, names: seq<string>)
    requires WellFormedDefs(defs)
    ensures EavMapFor(env, defs, snap, IdsNamed(defs, names)) ==
            map k | k in EavMap(env, defs, snap) && k in names :: EavMap(env, defs, snap)[k]
    decreases |snap|
  {
    if snap != [] {
      var p, x := snap[..|snap| - 1], snap[|snap| - 1];
      ByNamesRestricts(env, defs, p, names);
      match FindById(defs, x.attributeId)
      case None =>
      case Some(d) =>
        var i :| 0 <= i < |defs| && defs[i] == d && d.id == x.attributeId;
        IdsNamedOf(defs, names, d);
    }
  }

  /** getEavAttributesByNames only returns keys among the requested names. */
  lemma ByNamesKeys(env: Platform, defs: seq<AttributeDef>, snap: seq<Row<Scalar>>, names: seq<string>)
    requires WellFormedDefs(defs)
    ensures forall k :: k in EavMapFor(env, defs, snap, IdsNamed(defs, names)) ==> k in names
  {
    ByNamesRestricts(env, defs, snap, names);
  }

  // ---------------------------------------------------------------------------------------------
  // Reading after writing

  /**
    After setEavAttribute(key, v) has saved `saved` and updated the collection, getEavAttribute(key)
    decodes v and every other name reads as before.
  */
  lemma PutSnapshotValue(env: Platform, defs: seq<AttributeDef>, snap: seq<Row<Scalar>>, key: string,
                         saved: Row<string>, v: Scalar, name: string)
    requires WellFormedDefs(defs) && FindByName(defs, key).Some? && saved.attributeId == FindByName(defs, key).value.id
    ensures ValueOf(env, defs, PutSnapshot(snap, saved, v), name) ==
            if name == key then Cast(env, Some(v), FindByName(defs, key)) else ValueOf(env, defs, snap, name)
    ensures HasValue(defs, PutSnapshot(snap, saved, v), name) == (name == key || HasValue(defs, snap, name))
  {
    var a := saved.attributeId;
    var s := PutSnapshot(snap, saved, v);
    if FindByName(defs, name).Some? {
      var dn := FindByName(defs, name).value;
      if name != key {
        DistinctNamesDistinctIds(defs, name, key);
      }
      if FirstWithAttr(snap, a).Some? {
        FirstWithAttrAfterUpdate(snap, a, Some(v), dn.id);
      } else {
        FirstWithAttrAppend(snap, Row(saved.id, a, saved.entityType, saved.entityId, Some(v)), dn.id);
      }
    }
  }

  /** After the owner's rows of `attrs` are deleted and the collection reloaded, those names read as null. */
  lemma RemovedReadsNull(env: Platform, defs: seq<AttributeDef>, rows: seq<Row<string>>, attrs: set<nat>,
                         t: string, e: nat, name: string)
    requires FindByName(defs, name).Some? && FindByName(defs, name).value.id in attrs
    ensures ValueOf(env, defs, LoadRows(OwnerRows(RemoveAttrs(rows, attrs, t, e), t, e)), name) == JNull
    ensures !HasValue(defs, LoadRows(OwnerRows(RemoveAttrs(rows, attrs, t, e), t, e)), name)
  {
    var a := FindByName(defs, name).value.id;
    var left := RemoveAttrs(rows, attrs, t, e);
    FirstKeyIsOwnersFirst(left, a, t, e);
    var o := OwnerRows(left, t, e);
    var l := LoadRows(o);
    forall y | y in l ensures y.attributeId != a {
      var i :| 0 <= i < |l| && l[i] == y;
      assert o[i] in o;
    }
  }

  /** A collection with no row of the attributes `attrs` reads null for their names. */
  lemma AbsentReadsNull(env: Platform, defs: seq<AttributeDef>, snap: seq<Row<Scalar>>, attrs: set<nat>, name: string)
    requires FindByName(defs, name).Some? && FindByName(defs, name).value.id in attrs && IdsWithAttrs(snap, attrs) == {}
    ensures ValueOf(env, defs, snap, name) == JNull && !HasValue(defs, snap, name)
  {
    var a := FindByName(defs, name).value.id;
    forall y | y in snap ensures y.attributeId != a {
      var i :| 0 <= i < |snap| && snap[i] == y;
      assert snap[i].id !in IdsWithAttrs(snap, attrs);
    }
  }

  /** A collection has ids to delete for attribute a exactly when it has a row of a. */
  lemma IdsWithAttrEmpty<V>(snap: seq<Row<V>>, a: nat)
    ensures IdsWithAttrs(snap, {a}) == {} <==> FirstWithAttr(snap, a).None?
  {
    if FirstWithAttr(snap, a).Some? {
      var y := FirstWithAttr(snap, a).value;
      var i :| 0 <= i < |snap| && snap[i] == y;
      assert y.id in IdsWithAttrs(snap, {a});
    }
  }

  /**
    Reloading reads a name through the table: two tables with the same first row for the name's
    key read the same after a reload.
  */
  lemma ReloadReadsAlike(env: Platform, defs: seq<AttributeDef>, rows1: seq<Row<string>>, rows2: seq<Row<string>>,
                         t: string, e: nat, name: string)
    requires FindByName(defs, name).Some? ==>
             FirstKey(rows1, FindByName(defs, name).value.id, t, e) == FirstKey(rows2, FindByName(defs, name).value.id, t, e)
    ensures ValueOf(env, defs, LoadRows(OwnerRows(rows1, t, e)), name) == ValueOf(env, defs, LoadRows(OwnerRows(rows2, t, e)), name)
    ensures HasValue(defs, LoadRows(OwnerRows(rows1, t, e)), name) == HasValue(defs, LoadRows(OwnerRows(rows2, t, e)), name)
  {
    if FindByName(defs, name).Some? {
      var a := FindByName(defs, name).value.id;
      FirstKeyIsOwnersFirst(rows1, a, t, e);
      FirstKeyIsOwnersFirst(rows2, a, t, e);
      FirstWithAttrLoad(OwnerRows(rows1, t, e), a);
      FirstWithAttrLoad(OwnerRows(rows2, t, e), a);
    }
  }

  /** updateOrCreate for `key` stores the text for `key` and leaves every other name's stored value alone. */
  lemma UpsertStored(defs: seq<AttributeDef>, rows: seq<Row<string>>, nextId: nat, key: string, t: string, e: nat, text: string)
    requires WellFormedDefs(defs) && FindByName(defs, key).Some?
    ensures forall name :: StoredText(defs, Upsert(rows, nextId, FindByName(defs, key).value.id, t, e, text).0, t, e, name) ==
                           if name == key then Some(Some(text)) else StoredText(defs, rows, t, e, name)
  {
    var a := FindByName(defs, key).value.id;
    UpsertFindsSaved(rows, nextId, a, t, e, text);
    forall name
      ensures StoredText(defs, Upsert(rows, nextId, a, t, e, text).0, t, e, name) ==
              if name == key then Some(Some(text)) else StoredText(defs, rows, t, e, name)
    {
      if name != key && FindByName(defs, name).Some? {
        DistinctNamesDistinctIds(defs, name, key);
        UpsertOtherKeys(rows, nextId, a, t, e, text, FindByName(defs, name).value.id, t, e);
      }
    }
  }

  /** Deleting the owner's rows of `attrs` clears the names defined with those ids and no others. */
  lemma RemoveStored(defs: seq<AttributeDef>, rows: seq<Row<string>>, attrs: set<nat>, t: string, e: nat, name: string)
    ensures StoredText(defs, RemoveAttrs(rows, attrs, t, e), t, e, name) ==
            if FindByName(defs, name).Some? && FindByName(defs, name).value.id in attrs then None
            else StoredText(defs, rows, t, e, name)
  {
    if FindByName(defs, name).Some? {
      var a := FindByName(defs, name).value.id;
      if a !in attrs {
        RemoveAttrsOtherKeys(rows, attrs, t, e, a, t, e);
      }
    }
  }
}
