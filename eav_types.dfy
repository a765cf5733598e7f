/**
  The entities of the Entity-Attribute-Value engine: attribute definitions (the `attributes`
  table), stored values (the `attribute_values` table) and the platform functions of PHP that
  the engine calls but that are not part of it.
*/
module EavTypes {
  import opened Wrappers

  /** The four attribute types of `App\Enums\AttributeType`. */
  datatype AttributeType = Text | Number | Date | Select

  /** One row of the `attributes` table; `options` is the nullable JSON column. */
  datatype AttributeDef = AttributeDef(id: nat, name: string, kind: AttributeType, options: Option<seq<string>>)

  /**
    One row of `attribute_values`. The database keeps `value` as nullable text (V = string); the
    owner's loaded `attributeValues` collection keeps whatever PHP value was last assigned (V = Scalar).
  */
  datatype Row<V> = Row(id: nat, attributeId: nat, entityType: string, entityId: nat, value: Option<V>)

  /** A value that validation produces: a string, or the float that a NUMBER attribute is cast to. */
  datatype Scalar = Str(s: string) | Float(x: real)

  /** The exceptions (`InvalidArgumentException`) raised when setting a dynamic attribute. */
  datatype EavError =
    | UnknownAttribute(name: string)
    | InvalidDate(name: string)
    | NotANumber(name: string)
    | InvalidOption(name: string, options: seq<string>)

  /**
    PHP built-ins the engine relies on, left uninterpreted: `strtotime` (None stands for `false`),
    `date('Y-m-d', ·)`, `is_numeric`, the `(float)` cast and the text a float becomes when it is
    written to a text column.
  */
  datatype Platform = Platform(
    strtotime: string -> Option<int>,
    formatYmd: int -> string,
    isNumeric: string -> bool,
    toFloat: string -> real,
    floatText: real -> string)

  /** PHP's truthiness of a `strtotime` result: `false` and the timestamp 0 are both falsy. */
  predicate TruthyTimestamp(t: Option<int>) {
    t.Some? && t.value != 0
  }

  /** The text that the `value` column receives for a PHP value. */
  function ColumnText(env: Platform, v: Scalar): string {
    match v
    case Str(s) => s
    case Float(x) => env.floatText(x)
  }

  /** The database's view of a loaded row. */
  function ColumnRow(env: Platform, r: Row<Scalar>): Row<string> {
    Row(r.id, r.attributeId, r.entityType, r.entityId,
        if r.value.Some? then Some(ColumnText(env, r.value.value)) else None)
  }

  /** Ids are the primary key and names carry a unique index, so neither repeats in the table. */
  ghost predicate WellFormedDefs(defs: seq<AttributeDef>) {
    && (forall i, j :: 0 <= i < j < |defs| ==> defs[i].id != defs[j].id)
    && (forall i, j :: 0 <= i < j < |defs| ==> defs[i].name != defs[j].name)
  }
}
