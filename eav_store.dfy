/**
  The `attribute_values` table as the engine writes it: `AttributeValue::updateOrCreate`,
  `whereIn('id', …)->delete()` and `$this->attributeValues()->delete()`.
*/
module EavStore {
  import opened Wrappers
  import opened EavTypes
  import opened EavRows

  /** The table's rows in primary-key order and its auto-increment counter. */
  class ValueTable {
    var rows: seq<Row<string>>
    var nextId: nat

    /** The unique (attribute_id, entity_id, entity_type) key, the primary key and the counter. */
    ghost predicate Valid()
      reads this
    {
      UniqueKeys(rows) && UniqueIds(rows) && IdsBelow(rows, nextId)
    }

    constructor (initial: seq<Row<string>>, next: nat)
      requires UniqueKeys(initial) && UniqueIds(initial) && IdsBelow(initial, next)
      ensures Valid() && rows == initial && nextId == next
    {
      rows := initial;
      nextId := next;
    }

    /** The owner's `attributeValues` relation as a fresh query returns it. */
    method Relation(t: string, e: nat) returns (r: seq<Row<string>>)
      requires Valid()
      ensures forall x :: x in r <==> x in rows && Owns(x, t, e)
      ensures r == OwnerRows(rows, t, e)
    {
      r := OwnerRows(rows, t, e);
      forall x | x in rows && Owns(x, t, e) ensures x in r {
        OwnerRowsComplete(rows, x, t, e);
      }
    }

    /**
      `updateOrCreate(['attribute_id' => a, 'entity_id' => e, 'entity_type' => t], ['value' => text])`:
      the first row with that key gets the value, or a row with the next id is created.
    */
    method UpdateOrCreate(a: nat, t: string, e: nat, text: string) returns (saved: Row<string>)
      requires Valid()
      modifies this
      ensures Valid()
      ensures (rows, saved) == Upsert(old(rows), old(nextId), a, t, e, text)
      ensures nextId == if FirstKey(old(rows), a, t, e).Some? then old(nextId) else old(nextId) + 1
      ensures FirstKey(rows, a, t, e) == Some(saved) && saved.value == Some(text)
    {
      var res := Upsert(rows, nextId, a, t, e, text);
      UpsertKeepsUnique(rows, nextId, a, t, e, text);
      UpsertFindsSaved(rows, nextId, a, t, e, text);
      if FirstKey(rows, a, t, e).None? {
        nextId := nextId + 1;
      }
      rows, saved := res.0, res.1;
    }

    /** `AttributeValue::whereIn('id', ids)->delete()`: the number of rows deleted. */
    method DeleteIds(ids: set<nat>) returns (count: nat)
      requires Valid()
      modifies this
      ensures Valid() && nextId == old(nextId)
      ensures rows == RemoveIds(old(rows), ids)
      ensures count == |old(rows)| - |rows|
    {
      var left := RemoveIds(rows, ids);
      RemoveIdsKeepsUnique(rows, ids);
      count := |rows| - |left|;
      rows := left;
    }

    /** `$this->attributeValues()->delete()`: every row of owner (t, e) goes. */
    method DeleteOwned(t: string, e: nat) returns (count: nat)
      requires Valid()
      modifies this
      ensures Valid() && nextId == old(nextId)
      ensures rows == RemoveOwned(old(rows), t, e)
      ensures count == |OwnerRows(old(rows), t, e)|
    {
      var left := RemoveOwned(rows, t, e);
      RemoveOwnedKeepsUnique(rows, t, e);
      RemoveOwnedCount(rows, t, e);
      count := |rows| - |left|;
      rows := left;
    }
  }
}
