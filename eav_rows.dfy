/**
  Rows of `attribute_values` as sequences, and the operations the engine performs on them:
  the morph-many relation of one owner, updateOrCreate keyed by (attribute_id, entity_id,
  entity_type), deletion by id, and the owner's loaded `attributeValues` collection.
*/
module EavRows {
  import opened Wrappers
  import opened EavTypes

  predicate Owns<V>(r: Row<V>, t: string, e: nat) {
    r.entityType == t && r.entityId == e
  }

  predicate HasKey<V>(r: Row<V>, a: nat, t: string, e: nat) {
    r.attributeId == a && Owns(r, t, e)
  }

  /** The morph-many relation `attributeValues` of owner (t, e), in table order. */
  function OwnerRows<V>(rows: seq<Row<V>>, t: string, e: nat): (r: seq<Row<V>>)
    ensures |r| <= |rows|
    ensures forall x :: x in r ==> x in rows && Owns(x, t, e)
  {
    if rows == [] then []
    else (if Owns(rows[0], t, e) then [rows[0]] else []) + OwnerRows(rows[1..], t, e)
  }

  /** `first(fn ($v) => $v->attribute_id === a)` on a collection. */
  function FirstWithAttr<V>(rows: seq<Row<V>>, a: nat): (r: Option<Row<V>>)
    ensures r.None? <==> forall x :: x in rows ==> x.attributeId != a
    ensures r.Some? ==> r.value in rows && r.value.attributeId == a
  {
    if rows == [] then None
    else if rows[0].attributeId == a then Some(rows[0])
    else FirstWithAttr(rows[1..], a)
  }

  /** The row `updateOrCreate` finds by its key: the first one carrying (a, t, e). */
  function FirstKey<V>(rows: seq<Row<V>>, a: nat, t: string, e: nat): (r: Option<Row<V>>)
    ensures r.None? <==> forall x :: x in rows ==> !HasKey(x, a, t, e)
    ensures r.Some? ==> r.value in rows && HasKey(r.value, a, t, e)
  {
    if rows == [] then None
    else if HasKey(rows[0], a, t, e) then Some(rows[0])
    else FirstKey(rows[1..], a, t, e)
  }

  /** Assign `v` to the first row of the collection with attribute a (`$existing->value = ...`). */
  function UpdateFirstAttr<V>(rows: seq<Row<V>>, a: nat, v: Option<V>): (r: seq<Row<V>>)
    ensures |r| == |rows|
  {
    if rows == [] then []
    else if rows[0].attributeId == a then [rows[0].(value := v)] + rows[1..]
    else [rows[0]] + UpdateFirstAttr(rows[1..], a, v)
  }

  /** The update half of updateOrCreate: the first row with key (a, t, e) receives `v`. */
  function UpdateFirstKey<V>(rows: seq<Row<V>>, a: nat, t: string, e: nat, v: Option<V>): (r: seq<Row<V>>)
    ensures |r| == |rows|
    ensures forall i :: 0 <= i < |rows| ==>
      r[i].id == rows[i].id && r[i].attributeId == rows[i].attributeId &&
      r[i].entityType == rows[i].entityType && r[i].entityId == rows[i].entityId
  {
    if rows == [] then []
    else if HasKey(rows[0], a, t, e) then [rows[0].(value := v)] + rows[1..]
    else [rows[0]] + UpdateFirstKey(rows[1..], a, t, e, v)
  }

  /** `AttributeValue::whereIn('id', ids)->delete()`: the rows that remain. */
  function RemoveIds<V(!new)>(rows: seq<Row<V>>, ids: set<nat>): (r: seq<Row<V>>)
    ensures |r| <= |rows|
    ensures forall x :: x in r <==> x in rows && x.id !in ids
  {
    if rows == [] then []
    else (if rows[0].id in ids then [] else [rows[0]]) + RemoveIds(rows[1..], ids)
  }

  /** The rows left once owner (t, e) has lost its rows of the attributes in `attrs`. */
  function RemoveAttrs<V(!new)>(rows: seq<Row<V>>, attrs: set<nat>, t: string, e: nat): (r: seq<Row<V>>)
    ensures forall x :: x in r <==> x in rows && !(Owns(x, t, e) && x.attributeId in attrs)
  {
    if rows == [] then []
    else (if Owns(rows[0], t, e) && rows[0].attributeId in attrs then [] else [rows[0]])
         + RemoveAttrs(rows[1..], attrs, t, e)
  }

  /** `$this->attributeValues()->delete()`: every row of owner (t, e) removed. */
  function RemoveOwned<V(!new)>(rows: seq<Row<V>>, t: string, e: nat): (r: seq<Row<V>>)
    ensures forall x :: x in r <==> x in rows && !Owns(x, t, e)
  {
    if rows == [] then []
    else (if Owns(rows[0], t, e) then [] else [rows[0]]) + RemoveOwned(rows[1..], t, e)
  }

  /** The ids of the rows whose attribute is in `attrs` (`whereIn('attribute_id', …)->pluck('id')`). */
  function IdsWithAttrs<V>(rows: seq<Row<V>>, attrs: set<nat>): (ids: set<nat>)
    ensures forall id :: id in ids <==> exists i :: 0 <= i < |rows| && rows[i].attributeId in attrs && rows[i].id == id
  {
    set i | 0 <= i < |rows| && rows[i].attributeId in attrs :: rows[i].id
  }

  /** The number of rows whose attribute is in `attrs`. */
  function CountAttrs<V>(rows: seq<Row<V>>, attrs: set<nat>): (n: nat)
    ensures n <= |rows|
  {
    if rows == [] then 0
    else (if rows[0].attributeId in attrs then 1 else 0) + CountAttrs(rows[1..], attrs)
  }

  /** A row as PHP reads it back from the table: the value column is a string or null. */
  function LoadRow(r: Row<string>): Row<Scalar> {
    Row(r.id, r.attributeId, r.entityType, r.entityId, if r.value.Some? then Some(Str(r.value.value)) else None)
  }

  /** `load('attributeValues')`: the owner's rows as PHP reads them back, every value a string. */
  function LoadRows(rows: seq<Row<string>>): (r: seq<Row<Scalar>>)
    ensures |r| == |rows|
    ensures forall i :: 0 <= i < |r| ==> r[i] == LoadRow(rows[i])
  {
    if rows == [] then [] else [LoadRow(rows[0])] + LoadRows(rows[1..])
  }

  /** The database's view of a loaded collection. */
  function ColumnRows(env: Platform, rows: seq<Row<Scalar>>): (r: seq<Row<string>>)
    ensures |r| == |rows|
    ensures forall i :: 0 <= i < |r| ==> r[i] == ColumnRow(env, rows[i])
  {
    if rows == [] then [] else [ColumnRow(env, rows[0])] + ColumnRows(env, rows[1..])
  }

  /** updateOrCreate: the new table and the saved row. */
  function Upsert(rows: seq<Row<string>>, nextId: nat, a: nat, t: string, e: nat, text: string)
    : (res: (seq<Row<string>>, Row<string>))
  {
    match FirstKey(rows, a, t, e)
    case Some(r) => (UpdateFirstKey(rows, a, t, e, Some(text)), r.(value := Some(text)))
    case None => var n := Row(nextId, a, t, e, Some(text)); (rows + [n], n)
  }

  /**
    What setEavAttribute does to the loaded collection after saving `saved`: assign the first row
    of that attribute in place, or push the saved row when there is none.
  */
  function PutSnapshot(rows: seq<Row<Scalar>>, saved: Row<string>, v: Scalar): seq<Row<Scalar>> {
    if FirstWithAttr(rows, saved.attributeId).Some? then UpdateFirstAttr(rows, saved.attributeId, Some(v))
    else rows + [Row(saved.id, saved.attributeId, saved.entityType, saved.entityId, Some(v))]
  }

  function KeyOf<V>(r: Row<V>): (nat, string, nat) {
    (r.attributeId, r.entityType, r.entityId)
  }

  /** At most one row per (attribute_id, entity_type, entity_id). */
  ghost predicate UniqueKeys<V>(rows: seq<Row<V>>) {
    forall i, j :: 0 <= i < j < |rows| ==> KeyOf(rows[i]) != KeyOf(rows[j])
  }

  /** `id` is the table's primary key. */
  ghost predicate UniqueIds<V>(rows: seq<Row<V>>) {
    forall i, j :: 0 <= i < j < |rows| ==> rows[i].id != rows[j].id
  }

  /** No attribute occurs twice: what UniqueKeys means for the rows of a single owner. */
  ghost predicate UniqueAttrs<V>(rows: seq<Row<V>>) {
    forall i, j :: 0 <= i < j < |rows| ==> rows[i].attributeId != rows[j].attributeId
  }

  /** Every id is below the next auto-increment value. */
  ghost predicate IdsBelow<V>(rows: seq<Row<V>>, next: nat) {
    forall x :: x in rows ==> x.id < next
  }

  // ---------------------------------------------------------------------------------------------
  // The owner's relation and the key lookup

  lemma {:induction false} OwnerRowsAppend<V>(rows: seq<Row<V>>, x: Row<V>, t: string, e: nat)
    ensures OwnerRows(rows + [x], t, e) == OwnerRows(rows, t, e) + (if Owns(x, t, e) then [x] else [])
  {
    var ext := if Owns(x, t, e) then [x] else [];
    if rows == [] {
      assert rows + [x] == [x];
      assert [x][1..] == [];
      assert OwnerRows([x], t, e) == ext + OwnerRows([], t, e);
    } else {
      var head := if Owns(rows[0], t, e) then [rows[0]] else [];
      var tail := rows[1..];
      assert (rows + [x])[0] == rows[0];
      assert (rows + [x])[1..] == tail + [x];
      OwnerRowsAppend(tail, x, t, e);
      calc {
        OwnerRows(rows + [x], t, e);
        head + OwnerRows(tail + [x], t, e);
        head + (OwnerRows(tail, t, e) + ext);
        (head + OwnerRows(tail, t, e)) + ext;
        OwnerRows(rows, t, e) + ext;
      }
    }
  }

  /** updateOrCreate finds in the table the row that the owner's relation lists first for the attribute. */
  lemma {:induction false} FirstKeyIsOwnersFirst<V>(rows: seq<Row<V>>, a: nat, t: string, e: nat)
    ensures FirstKey(rows, a, t, e) == FirstWithAttr(OwnerRows(rows, t, e), a)
  {
    if rows != [] {
      FirstKeyIsOwnersFirst(rows[1..], a, t, e);
      var o, rest := OwnerRows(rows, t, e), OwnerRows(rows[1..], t, e);
      if Owns(rows[0], t, e) {
        assert o == [rows[0]] + rest;
        assert o[0] == rows[0] && o[1..] == rest;
        assert FirstWithAttr(o, a) == if rows[0].attributeId == a then Some(rows[0]) else FirstWithAttr(rest, a);
      } else {
        assert o == rest;
      }
    }
  }

  /** Updating the table row with key (a, t, e) updates the owner's first row of attribute a. */
  lemma {:induction false} OwnerRowsUpdateKey<V>(rows: seq<Row<V>>, a: nat, t: string, e: nat, v: Option<V>)
    ensures OwnerRows(UpdateFirstKey(rows, a, t, e, v), t, e) == UpdateFirstAttr(OwnerRows(rows, t, e), a, v)
  {
    if rows != [] {
      var u := UpdateFirstKey(rows, a, t, e, v);
      var o, rest := OwnerRows(rows, t, e), OwnerRows(rows[1..], t, e);
      if HasKey(rows[0], a, t, e) {
        assert u == [rows[0].(value := v)] + rows[1..];
        assert u[0] == rows[0].(value := v) && u[1..] == rows[1..];
        assert o == [rows[0]] + rest;
        assert o[0] == rows[0] && o[1..] == rest;
        assert OwnerRows(u, t, e) == [rows[0].(value := v)] + rest;
      } else {
        OwnerRowsUpdateKey(rows[1..], a, t, e, v);
        assert u == [rows[0]] + UpdateFirstKey(rows[1..], a, t, e, v);
        assert u[0] == rows[0] && u[1..] == UpdateFirstKey(rows[1..], a, t, e, v);
        if Owns(rows[0], t, e) {
          assert o == [rows[0]] + rest;
          assert o[0] == rows[0] && o[1..] == rest;
          assert OwnerRows(u, t, e) == [rows[0]] + OwnerRows(UpdateFirstKey(rows[1..], a, t, e, v), t, e);
        } else {
          assert o == rest;
          assert OwnerRows(u, t, e) == OwnerRows(UpdateFirstKey(rows[1..], a, t, e, v), t, e);
        }
      }
    }
  }

  // ---------------------------------------------------------------------------------------------
  // The loaded collection against the table

  lemma {:induction false} ColumnRowsAppend(env: Platform, rows: seq<Row<Scalar>>, x: Row<Scalar>)
    ensures ColumnRows(env, rows + [x]) == ColumnRows(env, rows) + [ColumnRow(env, x)]
  {
    if rows == [] {
      assert rows + [x] == [x];
    } else {
      assert (rows + [x])[1..] == rows[1..] + [x];
      ColumnRowsAppend(env, rows[1..], x);
    }
  }

  /** Reading rows back from the table and writing them again gives the same rows. */
  lemma {:induction false} ColumnRowsOfLoad(env: Platform, rows: seq<Row<string>>)
    ensures ColumnRows(env, LoadRows(rows)) == rows
  {
    if rows != [] {
      ColumnRowsOfLoad(env, rows[1..]);
      var l := LoadRows(rows);
      assert l[0] == Row(rows[0].id, rows[0].attributeId, rows[0].entityType, rows[0].entityId,
                         if rows[0].value.Some? then Some(Str(rows[0].value.value)) else None);
      assert l[1..] == LoadRows(rows[1..]);
    }
  }

  lemma {:induction false} ColumnRowsUpdate(env: Platform, rows: seq<Row<Scalar>>, a: nat, v: Scalar)
    ensures ColumnRows(env, UpdateFirstAttr(rows, a, Some(v))) == UpdateFirstAttr(ColumnRows(env, rows), a, Some(ColumnText(env, v)))
    ensures FirstWithAttr(ColumnRows(env, rows), a).Some? <==> FirstWithAttr(rows, a).Some?
  {
    if rows != [] {
      var c := ColumnRows(env, rows);
      assert c[0] == ColumnRow(env, rows[0]) && c[1..] == ColumnRows(env, rows[1..]);
      var u := UpdateFirstAttr(rows, a, Some(v));
      if rows[0].attributeId == a {
        assert u[0] == rows[0].(value := Some(v)) && u[1..] == rows[1..];
      } else {
        ColumnRowsUpdate(env, rows[1..], a, v);
        assert u[0] == rows[0] && u[1..] == UpdateFirstAttr(rows[1..], a, Some(v));
      }
    }
  }

  /** Assigning to the first row of an attribute the value it already has changes nothing. */
  lemma {:induction false} UpdateFirstAttrSame<V>(rows: seq<Row<V>>, a: nat, v: Option<V>)
    requires FirstWithAttr(rows, a).Some? && FirstWithAttr(rows, a).value.value == v
    ensures UpdateFirstAttr(rows, a, v) == rows
  {
    if rows[0].attributeId != a {
      UpdateFirstAttrSame(rows[1..], a, v);
      assert rows == [rows[0]] + rows[1..];
    } else {
      assert rows == [rows[0]] + rows[1..];
    }
  }

  /** After the assignment the attribute's first row holds the new value; other attributes read as before. */
  lemma {:induction false} FirstWithAttrAfterUpdate<V>(rows: seq<Row<V>>, a: nat, v: Option<V>, b: nat)
    requires FirstWithAttr(rows, a).Some?
    ensures b == a ==> FirstWithAttr(UpdateFirstAttr(rows, a, v), b) == Some(FirstWithAttr(rows, a).value.(value := v))
    ensures b != a ==> FirstWithAttr(UpdateFirstAttr(rows, a, v), b) == FirstWithAttr(rows, b)
  {
    var u := UpdateFirstAttr(rows, a, v);
    if rows[0].attributeId == a {
      assert u[0] == rows[0].(value := v) && u[1..] == rows[1..];
    } else {
      FirstWithAttrAfterUpdate(rows[1..], a, v, b);
      assert u[0] == rows[0] && u[1..] == UpdateFirstAttr(rows[1..], a, v);
    }
  }

  lemma {:induction false} FirstWithAttrAppend<V>(rows: seq<Row<V>>, x: Row<V>, b: nat)
    ensures FirstWithAttr(rows + [x], b) == if FirstWithAttr(rows, b).Some? then FirstWithAttr(rows, b)
                                             else if x.attributeId == b then Some(x) else None
  {
    if rows == [] {
      assert rows + [x] == [x];
    } else {
      assert (rows + [x])[0] == rows[0] && (rows + [x])[1..] == rows[1..] + [x];
      FirstWithAttrAppend(rows[1..], x, b);
    }
  }

  /**
    setEavAttribute keeps the loaded collection in step with the table: if it was in step before
    the upsert, putting the validated value into it leaves it in step after.
  */
  lemma PutKeepsInStep(env: Platform, snap: seq<Row<Scalar>>, rows: seq<Row<string>>,
                       nextId: nat, a: nat, t: string, e: nat, v: Scalar)
    requires ColumnRows(env, snap) == OwnerRows(rows, t, e)
    ensures var res := Upsert(rows, nextId, a, t, e, ColumnText(env, v));
            ColumnRows(env, PutSnapshot(snap, res.1, v)) == OwnerRows(res.0, t, e)
  {
    var text := ColumnText(env, v);
    var res := Upsert(rows, nextId, a, t, e, text);
    FirstKeyIsOwnersFirst(rows, a, t, e);
    ColumnRowsUpdate(env, snap, a, v);
    match FirstKey(rows, a, t, e)
    case Some(r) =>
      OwnerRowsUpdateKey(rows, a, t, e, Some(text));
    case None =>
      OwnerRowsAppend(rows, res.1, t, e);
      ColumnRowsAppend(env, snap, Row(res.1.id, a, t, e, Some(v)));
  }

  /** The saved row is the one the key now finds, holding the new text. */
  lemma {:induction false} UpsertFindsSaved(rows: seq<Row<string>>, nextId: nat, a: nat, t: string, e: nat, text: string)
    ensures var res := Upsert(rows, nextId, a, t, e, text);
            FirstKey(res.0, a, t, e) == Some(res.1) && HasKey(res.1, a, t, e) && res.1.value == Some(text)
  {
    var res := Upsert(rows, nextId, a, t, e, text);
    if FirstKey(rows, a, t, e).Some? {
      FirstKeyUpdate(rows, a, t, e, Some(text));
    } else {
      FirstKeyAppend(rows, res.1, a, t, e);
    }
  }

  lemma {:induction false} FirstKeyUpdate<V>(rows: seq<Row<V>>, a: nat, t: string, e: nat, v: Option<V>)
    requires FirstKey(rows, a, t, e).Some?
    ensures FirstKey(UpdateFirstKey(rows, a, t, e, v), a, t, e) == Some(FirstKey(rows, a, t, e).value.(value := v))
  {
    var u := UpdateFirstKey(rows, a, t, e, v);
    if HasKey(rows[0], a, t, e) {
      assert u[0] == rows[0].(value := v);
    } else {
      FirstKeyUpdate(rows[1..], a, t, e, v);
      assert u[0] == rows[0] && u[1..] == UpdateFirstKey(rows[1..], a, t, e, v);
    }
  }

  lemma {:induction false} FirstKeyAppend<V>(rows: seq<Row<V>>, x: Row<V>, a: nat, t: string, e: nat)
    requires FirstKey(rows, a, t, e).None? && HasKey(x, a, t, e)
    ensures FirstKey(rows + [x], a, t, e) == Some(x)
  {
    if rows == [] {
      assert rows + [x] == [x];
    } else {
      assert (rows + [x])[0] == rows[0] && (rows + [x])[1..] == rows[1..] + [x];
      FirstKeyAppend(rows[1..], x, a, t, e);
    }
  }

  /** After a reload the collection is in step with the table, and putting the saved value keeps it so. */
  lemma ReloadPutInStep(env: Platform, rows: seq<Row<string>>, saved: Row<string>, v: Scalar, t: string, e: nat)
    requires FirstKey(rows, saved.attributeId, t, e) == Some(saved) && saved.value == Some(ColumnText(env, v))
    ensures ColumnRows(env, PutSnapshot(LoadRows(OwnerRows(rows, t, e)), saved, v)) == OwnerRows(rows, t, e)
  {
    var a := saved.attributeId;
    var o := OwnerRows(rows, t, e);
    var l := LoadRows(o);
    ColumnRowsOfLoad(env, o);
    FirstKeyIsOwnersFirst(rows, a, t, e);
    ColumnRowsUpdate(env, l, a, v);
    UpdateFirstAttrSame(o, a, Some(ColumnText(env, v)));
  }

  // ---------------------------------------------------------------------------------------------
  // Table invariants kept by updateOrCreate and by deletion

  lemma ConsUnique<V>(x: Row<V>, rows: seq<Row<V>>)
    requires UniqueKeys(rows) && UniqueIds(rows)
    requires forall y :: y in rows ==> KeyOf(y) != KeyOf(x) && y.id != x.id
    ensures UniqueKeys([x] + rows) && UniqueIds([x] + rows)
  {
    var s := [x] + rows;
    forall i, j | 0 <= i < j < |s| ensures KeyOf(s[i]) != KeyOf(s[j]) && s[i].id != s[j].id {
      assert s[j] == rows[j - 1];
      if i > 0 { assert s[i] == rows[i - 1]; }
    }
  }

  lemma UniqueTail<V>(rows: seq<Row<V>>)
    requires rows != [] && UniqueKeys(rows) && UniqueIds(rows)
    ensures UniqueKeys(rows[1..]) && UniqueIds(rows[1..])
    ensures forall y :: y in rows[1..] ==> KeyOf(y) != KeyOf(rows[0]) && y.id != rows[0].id
  {
    forall y | y in rows[1..] ensures KeyOf(y) != KeyOf(rows[0]) && y.id != rows[0].id {
      var j :| 0 <= j < |rows[1..]| && rows[1..][j] == y;
      assert rows[j + 1] == y;
    }
  }

  /** Deleting a set of attributes of one owner keeps keys and ids unique. */
  lemma {:induction false} RemoveAttrsKeepsUnique<V(!new)>(rows: seq<Row<V>>, attrs: set<nat>, t: string, e: nat)
    requires UniqueKeys(rows) && UniqueIds(rows)
    ensures UniqueKeys(RemoveAttrs(rows, attrs, t, e)) && UniqueIds(RemoveAttrs(rows, attrs, t, e))
  {
    if rows != [] {
      UniqueTail(rows);
      RemoveAttrsKeepsUnique(rows[1..], attrs, t, e);
      if !(Owns(rows[0], t, e) && rows[0].attributeId in attrs) {
        ConsUnique(rows[0], RemoveAttrs(rows[1..], attrs, t, e));
      }
    }
  }

  /** Deleting every row of one owner keeps keys and ids unique. */
  lemma {:induction false} RemoveOwnedKeepsUnique<V(!new)>(rows: seq<Row<V>>, t: string, e: nat)
    requires UniqueKeys(rows) && UniqueIds(rows)
    ensures UniqueKeys(RemoveOwned(rows, t, e)) && UniqueIds(RemoveOwned(rows, t, e))
  {
    if rows != [] {
      UniqueTail(rows);
      RemoveOwnedKeepsUnique(rows[1..], t, e);
      if !Owns(rows[0], t, e) {
        ConsUnique(rows[0], RemoveOwned(rows[1..], t, e));
      }
    }
  }

  /** Deleting by ids keeps keys and ids unique. */
  lemma {:induction false} RemoveIdsKeepsUnique<V(!new)>(rows: seq<Row<V>>, ids: set<nat>)
    requires UniqueKeys(rows) && UniqueIds(rows)
    ensures UniqueKeys(RemoveIds(rows, ids)) && UniqueIds(RemoveIds(rows, ids))
  {
    if rows != [] {
      UniqueTail(rows);
      RemoveIdsKeepsUnique(rows[1..], ids);
      if rows[0].id !in ids {
        ConsUnique(rows[0], RemoveIds(rows[1..], ids));
      }
    }
  }

  /**
    updateOrCreate keeps at most one row per key and unique ids, with every id below the next
    auto-increment value once it has moved past a created row.
  */
  lemma UpsertKeepsUnique(rows: seq<Row<string>>, nextId: nat, a: nat, t: string, e: nat, text: string)
    requires UniqueKeys(rows) && UniqueIds(rows) && IdsBelow(rows, nextId)
    ensures var res := Upsert(rows, nextId, a, t, e, text);
            UniqueKeys(res.0) && UniqueIds(res.0) &&
            IdsBelow(res.0, if FirstKey(rows, a, t, e).Some? then nextId else nextId + 1)
  {
    var res := Upsert(rows, nextId, a, t, e, text);
    if FirstKey(rows, a, t, e).Some? {
      var u := res.0;
      assert forall i :: 0 <= i < |u| ==> KeyOf(u[i]) == KeyOf(rows[i]) && u[i].id == rows[i].id;
      forall x | x in u ensures x.id < nextId {
        var i :| 0 <= i < |u| && u[i] == x;
        assert rows[i] in rows;
      }
    } else {
      var n := res.1;
      forall i, j | 0 <= i < j < |res.0| ensures KeyOf(res.0[i]) != KeyOf(res.0[j]) && res.0[i].id != res.0[j].id {
        assert res.0[i] == rows[i] && rows[i] in rows;
        if j < |rows| { assert res.0[j] == rows[j]; }
      }
    }
  }

  /** When the ids to delete are exactly those of the owner's rows of `attrs`, deleting them is RemoveAttrs. */
  lemma {:induction false} RemoveIdsIsRemoveAttrs<V(!new)>(rows: seq<Row<V>>, ids: set<nat>, attrs: set<nat>, t: string, e: nat)
    requires forall x :: x in rows ==> (x.id in ids <==> Owns(x, t, e) && x.attributeId in attrs)
    ensures RemoveIds(rows, ids) == RemoveAttrs(rows, attrs, t, e)
  {
    if rows != [] {
      assert rows[0] in rows;
      RemoveIdsIsRemoveAttrs(rows[1..], ids, attrs, t, e);
    }
  }

  /** With unique ids, the ids of an owner's rows of `attrs` pick out exactly those rows of the table. */
  lemma IdsOfOwnedAttrs<V>(rows: seq<Row<V>>, attrs: set<nat>, t: string, e: nat)
    requires UniqueIds(rows)
    ensures var ids := IdsWithAttrs(OwnerRows(rows, t, e), attrs);
            forall x :: x in rows ==> (x.id in ids <==> Owns(x, t, e) && x.attributeId in attrs)
  {
    var o := OwnerRows(rows, t, e);
    var ids := IdsWithAttrs(o, attrs);
    forall x | x in rows ensures x.id in ids <==> Owns(x, t, e) && x.attributeId in attrs {
      if Owns(x, t, e) && x.attributeId in attrs {
        OwnerRowsComplete(rows, x, t, e);
        var i :| 0 <= i < |o| && o[i] == x;
      }
      if x.id in ids {
        var i :| 0 <= i < |o| && o[i].attributeId in attrs && o[i].id == x.id;
        assert o[i] in o;
        var p :| 0 <= p < |rows| && rows[p] == o[i];
        var q :| 0 <= q < |rows| && rows[q] == x;
        assert p == q;
      }
    }
  }

  /** Every row of the owner appears in its relation. */
  lemma {:induction false} OwnerRowsComplete<V>(rows: seq<Row<V>>, x: Row<V>, t: string, e: nat)
    requires x in rows && Owns(x, t, e)
    ensures x in OwnerRows(rows, t, e)
  {
    if rows[0] != x {
      assert x in rows[1..];
      OwnerRowsComplete(rows[1..], x, t, e);
    }
  }

  /** The number of rows deleted for an owner's attributes is the number of its rows of those attributes. */
  lemma {:induction false} RemoveAttrsCount<V(!new)>(rows: seq<Row<V>>, attrs: set<nat>, t: string, e: nat)
    ensures |rows| - |RemoveAttrs(rows, attrs, t, e)| == CountAttrs(OwnerRows(rows, t, e), attrs)
  {
    if rows != [] {
      RemoveAttrsCount(rows[1..], attrs, t, e);
      var o, rest := OwnerRows(rows, t, e), OwnerRows(rows[1..], t, e);
      if Owns(rows[0], t, e) {
        assert o == [rows[0]] + rest;
        assert o[0] == rows[0] && o[1..] == rest;
      } else {
        assert o == rest;
      }
    }
  }

  /** Deleting all of an owner's rows removes as many rows as its relation has. */
  lemma {:induction false} RemoveOwnedCount<V(!new)>(rows: seq<Row<V>>, t: string, e: nat)
    ensures |rows| - |RemoveOwned(rows, t, e)| == |OwnerRows(rows, t, e)|
  {
    if rows != [] {
      RemoveOwnedCount(rows[1..], t, e);
    }
  }

  /** Deleting an owner's attributes leaves every other key's row where it was. */
  lemma {:induction false} RemoveAttrsOtherKeys<V(!new)>(rows: seq<Row<V>>, attrs: set<nat>, t: string, e: nat,
                                                  b: nat, t': string, e': nat)
    requires !((t', e') == (t, e) && b in attrs)
    ensures FirstKey(RemoveAttrs(rows, attrs, t, e), b, t', e') == FirstKey(rows, b, t', e')
  {
    if rows != [] {
      var rest := RemoveAttrs(rows[1..], attrs, t, e);
      RemoveAttrsOtherKeys(rows[1..], attrs, t, e, b, t', e');
      if Owns(rows[0], t, e) && rows[0].attributeId in attrs {
        assert RemoveAttrs(rows, attrs, t, e) == rest;
        assert !HasKey(rows[0], b, t', e');
      } else {
        var r := [rows[0]] + rest;
        assert RemoveAttrs(rows, attrs, t, e) == r;
        assert r[0] == rows[0] && r[1..] == rest;
      }
    }
  }

  /** Deleting one owner's rows leaves every other owner's relation as it was. */
  lemma {:induction false} RemoveAttrsOtherOwners<V(!new)>(rows: seq<Row<V>>, attrs: set<nat>, t: string, e: nat,
                                                    t': string, e': nat)
    requires (t', e') != (t, e)
    ensures OwnerRows(RemoveAttrs(rows, attrs, t, e), t', e') == OwnerRows(rows, t', e')
  {
    if rows != [] {
      var rest := RemoveAttrs(rows[1..], attrs, t, e);
      RemoveAttrsOtherOwners(rows[1..], attrs, t, e, t', e');
      if Owns(rows[0], t, e) && rows[0].attributeId in attrs {
        assert RemoveAttrs(rows, attrs, t, e) == rest;
        assert !Owns(rows[0], t', e');
      } else {
        var r := [rows[0]] + rest;
        assert RemoveAttrs(rows, attrs, t, e) == r;
        assert r[0] == rows[0] && r[1..] == rest;
      }
    }
  }

  lemma {:induction false} RemoveOwnedOtherOwners<V(!new)>(rows: seq<Row<V>>, t: string, e: nat, t': string, e': nat)
    requires (t', e') != (t, e)
    ensures OwnerRows(RemoveOwned(rows, t, e), t', e') == OwnerRows(rows, t', e')
  {
    if rows != [] {
      var rest := RemoveOwned(rows[1..], t, e);
      RemoveOwnedOtherOwners(rows[1..], t, e, t', e');
      if Owns(rows[0], t, e) {
        assert RemoveOwned(rows, t, e) == rest;
        assert !Owns(rows[0], t', e');
      } else {
        var r := [rows[0]] + rest;
        assert RemoveOwned(rows, t, e) == r;
        assert r[0] == rows[0] && r[1..] == rest;
      }
    }
  }

  /** updateOrCreate leaves the row of every other key where it was. */
  lemma {:induction false} UpdateFirstKeyOtherKeys<V>(rows: seq<Row<V>>, a: nat, t: string, e: nat, v: Option<V>,
                                                     b: nat, t': string, e': nat)
    requires (b, t', e') != (a, t, e)
    ensures FirstKey(UpdateFirstKey(rows, a, t, e, v), b, t', e') == FirstKey(rows, b, t', e')
  {
    if rows != [] {
      var u := UpdateFirstKey(rows, a, t, e, v);
      if HasKey(rows[0], a, t, e) {
        assert u[0] == rows[0].(value := v) && u[1..] == rows[1..];
      } else {
        UpdateFirstKeyOtherKeys(rows[1..], a, t, e, v, b, t', e');
        assert u[0] == rows[0] && u[1..] == UpdateFirstKey(rows[1..], a, t, e, v);
      }
    }
  }

  lemma {:induction false} FirstKeyAppendOther<V>(rows: seq<Row<V>>, x: Row<V>, b: nat, t': string, e': nat)
    requires !HasKey(x, b, t', e')
    ensures FirstKey(rows + [x], b, t', e') == FirstKey(rows, b, t', e')
  {
    if rows == [] {
      assert rows + [x] == [x];
    } else {
      assert (rows + [x])[0] == rows[0] && (rows + [x])[1..] == rows[1..] + [x];
      FirstKeyAppendOther(rows[1..], x, b, t', e');
    }
  }

  /** updateOrCreate on one key changes no other key's row. */
  lemma UpsertOtherKeys(rows: seq<Row<string>>, nextId: nat, a: nat, t: string, e: nat, text: string,
                        b: nat, t': string, e': nat)
    requires (b, t', e') != (a, t, e)
    ensures FirstKey(Upsert(rows, nextId, a, t, e, text).0, b, t', e') == FirstKey(rows, b, t', e')
  {
    if FirstKey(rows, a, t, e).Some? {
      UpdateFirstKeyOtherKeys(rows, a, t, e, Some(text), b, t', e');
    } else {
      FirstKeyAppendOther(rows, Row(nextId, a, t, e, Some(text)), b, t', e');
    }
  }

  lemma {:induction false} UpdateFirstKeyOtherOwners<V>(rows: seq<Row<V>>, a: nat, t: string, e: nat, v: Option<V>,
                                                       t': string, e': nat)
    requires (t', e') != (t, e)
    ensures OwnerRows(UpdateFirstKey(rows, a, t, e, v), t', e') == OwnerRows(rows, t', e')
  {
    if rows != [] {
      var u := UpdateFirstKey(rows, a, t, e, v);
      if HasKey(rows[0], a, t, e) {
        assert u == [rows[0].(value := v)] + rows[1..];
        assert u[0] == rows[0].(value := v) && u[1..] == rows[1..];
      } else {
        UpdateFirstKeyOtherOwners(rows[1..], a, t, e, v, t', e');
        assert u == [rows[0]] + UpdateFirstKey(rows[1..], a, t, e, v);
        assert u[0] == rows[0] && u[1..] == UpdateFirstKey(rows[1..], a, t, e, v);
      }
    }
  }

  /** updateOrCreate for one owner leaves every other owner's relation as it was. */
  lemma UpsertOtherOwners(rows: seq<Row<string>>, nextId: nat, a: nat, t: string, e: nat, text: string,
                          t': string, e': nat)
    requires (t', e') != (t, e)
    ensures OwnerRows(Upsert(rows, nextId, a, t, e, text).0, t', e') == OwnerRows(rows, t', e')
  {
    if FirstKey(rows, a, t, e).Some? {
      UpdateFirstKeyOtherOwners(rows, a, t, e, Some(text), t', e');
    } else {
      OwnerRowsAppend(rows, Row(nextId, a, t, e, Some(text)), t', e');
    }
  }

  // ---------------------------------------------------------------------------------------------
  // The loaded collection of one owner

  /** One row per key in the table means one row per attribute in an owner's relation. */
  lemma {:induction false} OwnerRowsUniqueAttrs<V>(rows: seq<Row<V>>, t: string, e: nat)
    requires UniqueKeys(rows)
    ensures UniqueAttrs(OwnerRows(rows, t, e))
  {
    if rows != [] {
      var rest := OwnerRows(rows[1..], t, e);
      assert UniqueKeys(rows[1..]) by {
        forall i, j | 0 <= i < j < |rows[1..]| ensures KeyOf(rows[1..][i]) != KeyOf(rows[1..][j]) {
          assert rows[1..][i] == rows[i + 1] && rows[1..][j] == rows[j + 1];
        }
      }
      OwnerRowsUniqueAttrs(rows[1..], t, e);
      if Owns(rows[0], t, e) {
        var o := [rows[0]] + rest;
        assert OwnerRows(rows, t, e) == o;
        forall i, j | 0 <= i < j < |o| ensures o[i].attributeId != o[j].attributeId {
          if i == 0 {
            assert o[j] == rest[j - 1] && rest[j - 1] in rest;
            var k :| 0 <= k < |rows[1..]| && rows[1..][k] == o[j];
            assert rows[k + 1] == o[j];
            assert KeyOf(rows[0]) != KeyOf(rows[k + 1]);
          } else {
            assert o[i] == rest[i - 1] && o[j] == rest[j - 1];
          }
        }
      } else {
        assert OwnerRows(rows, t, e) == rest;
      }
    }
  }

  /** The ids of a collection's rows of `attrs` are the ids of their database view's rows. */
  lemma IdsWithAttrsColumn(env: Platform, rows: seq<Row<Scalar>>, attrs: set<nat>)
    ensures IdsWithAttrs(ColumnRows(env, rows), attrs) == IdsWithAttrs(rows, attrs)
  {
  }

  /** A collection in step with the owner's relation has one row per attribute. */
  lemma InStepUniqueAttrs(env: Platform, snap: seq<Row<Scalar>>, rows: seq<Row<string>>, t: string, e: nat)
    requires UniqueKeys(rows) && ColumnRows(env, snap) == OwnerRows(rows, t, e)
    ensures UniqueAttrs(snap)
  {
    OwnerRowsUniqueAttrs(rows, t, e);
    var c := ColumnRows(env, snap);
    assert forall i :: 0 <= i < |snap| ==> snap[i].attributeId == c[i].attributeId;
  }

  /** Some row of `attrs` means at least one row to count. */
  lemma {:induction false} CountAttrsPositive<V>(rows: seq<Row<V>>, attrs: set<nat>, i: nat)
    requires i < |rows| && rows[i].attributeId in attrs
    ensures CountAttrs(rows, attrs) > 0
  {
    if i > 0 {
      CountAttrsPositive(rows[1..], attrs, i - 1);
    }
  }

  /** A collection without a row of attribute a has no row to count for {a}. */
  lemma {:induction false} CountAttrsNone<V>(rows: seq<Row<V>>, attrs: set<nat>)
    requires forall i :: 0 <= i < |rows| ==> rows[i].attributeId !in attrs
    ensures CountAttrs(rows, attrs) == 0
  {
    if rows != [] {
      assert forall i :: 0 <= i < |rows[1..]| ==> rows[1..][i] == rows[i + 1];
      CountAttrsNone(rows[1..], attrs);
    }
  }

  /** The first row of an attribute after reloading is the reloaded first row. */
  lemma {:induction false} FirstWithAttrLoad(rows: seq<Row<string>>, a: nat)
    ensures FirstWithAttr(LoadRows(rows), a) ==
            if FirstWithAttr(rows, a).Some? then Some(LoadRow(FirstWithAttr(rows, a).value)) else None
  {
    if rows != [] {
      var l := LoadRows(rows);
      assert l[0] == LoadRow(rows[0]) && l[1..] == LoadRows(rows[1..]);
      FirstWithAttrLoad(rows[1..], a);
    }
  }

  /** Deleting ids that no row carries changes nothing. */
  lemma {:induction false} RemoveIdsNone<V(!new)>(rows: seq<Row<V>>, ids: set<nat>)
    requires forall x :: x in rows ==> x.id !in ids
    ensures RemoveIds(rows, ids) == rows
  {
    if rows != [] {
      assert rows[0] in rows;
      RemoveIdsNone(rows[1..], ids);
      assert RemoveIds(rows, ids) == [rows[0]] + rows[1..];
    }
  }

  /** Deleting with an empty set of attributes changes nothing. */
  lemma {:induction false} RemoveAttrsNone<V(!new)>(rows: seq<Row<V>>, t: string, e: nat)
    ensures RemoveAttrs(rows, {}, t, e) == rows
  {
    if rows != [] {
      RemoveAttrsNone(rows[1..], t, e);
      assert RemoveAttrs(rows, {}, t, e) == [rows[0]] + rows[1..];
    }
  }

  /** After deleting all of an owner's rows, its relation is empty. */
  lemma {:induction false} RemoveOwnedLeavesNone<V(!new)>(rows: seq<Row<V>>, t: string, e: nat)
    ensures OwnerRows(RemoveOwned(rows, t, e), t, e) == []
  {
    if rows != [] {
      RemoveOwnedLeavesNone(rows[1..], t, e);
      var rest := RemoveOwned(rows[1..], t, e);
      if Owns(rows[0], t, e) {
        assert RemoveOwned(rows, t, e) == rest;
      } else {
        var r := RemoveOwned(rows, t, e);
        assert r == [rows[0]] + rest;
        assert r[0] == rows[0] && r[1..] == rest;
      }
    }
  }
}
