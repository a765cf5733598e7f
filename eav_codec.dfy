/**
  The per-type codec: validateAttributeValue checks and normalises a value on write,
  castEavValue decodes a stored value on read.
*/
module EavCodec {
  import opened Wrappers
  import opened Json
  import opened EavTypes

  /**
    PHP 8's `==` between two strings: equal text, or two numeric strings with the same number.
    `in_array` without its strict flag compares with it.
  */
  predicate LooseEq(env: Platform, a: string, b: string) {
    a == b || (env.isNumeric(a) && env.isNumeric(b) && env.toFloat(a) == env.toFloat(b))
  }

  /** `in_array(value, options ?? [])`. */
  predicate InOptions(env: Platform, value: string, options: Option<seq<string>>) {
    exists o :: o in options.GetOr([]) && LooseEq(env, value, o)
  }

  /** validateAttributeValue: the value to store, or the InvalidArgumentException that is raised. */
  function Validate(env: Platform, def: AttributeDef, value: string): (r: Result<Scalar, EavError>)
    ensures def.kind == Text ==> r == Ok(Str(value))
    ensures def.kind == Date ==>
      if TruthyTimestamp(env.strtotime(value)) then r == Ok(Str(env.formatYmd(env.strtotime(value).value)))
      else r == Err(InvalidDate(def.name))
    ensures def.kind == Number ==>
      if env.isNumeric(value) then r == Ok(Float(env.toFloat(value))) else r == Err(NotANumber(def.name))
    ensures def.kind == Select ==>
      if InOptions(env, value, def.options) then r == Ok(Str(value))
      else r == Err(InvalidOption(def.name, def.options.GetOr([])))
  {
    match def.kind
    case Date =>
      var t := env.strtotime(value);
      if !TruthyTimestamp(t) then Err(InvalidDate(def.name)) else Ok(Str(env.formatYmd(t.value)))
    case Number =>
      if !env.isNumeric(value) then Err(NotANumber(def.name)) else Ok(Float(env.toFloat(value)))
    case Select =>
      if !InOptions(env, value, def.options) then Err(InvalidOption(def.name, def.options.GetOr([])))
      else Ok(Str(value))
    case Text => Ok(Str(value))
  }

  /** The PHP value itself, as castEavValue hands it back when it does not convert it. */
  function Raw(v: Option<Scalar>): Json {
    match v
    case None => JNull
    case Some(Str(s)) => JStr(s)
    case Some(Float(x)) => JNum(x)
  }

  /** `is_numeric` of a PHP value: a float always is, a string when the platform says so, null never. */
  predicate IsNumericValue(env: Platform, v: Option<Scalar>) {
    match v
    case None => false
    case Some(Float(_)) => true
    case Some(Str(s)) => env.isNumeric(s)
  }

  /** `(float)` of a PHP value that is numeric. */
  function FloatOf(env: Platform, v: Option<Scalar>): real
    requires IsNumericValue(env, v)
  {
    match v
    case Some(Float(x)) => x
    case Some(Str(s)) => env.toFloat(s)
  }

  /** `strtotime` of a PHP value; null, like the empty string, does not parse. */
  function TimestampOf(env: Platform, v: Option<Scalar>): Option<int> {
    match v
    case None => None
    case Some(x) => env.strtotime(ColumnText(env, x))
  }

  /** castEavValue once the definition has been looked up: decode by the definition's current type. */
  function Cast(env: Platform, v: Option<Scalar>, def: Option<AttributeDef>): (r: Json)
    ensures def.None? ==> r == Raw(v)
    ensures def.Some? && def.value.kind in {Text, Select} ==> r == Raw(v)
    ensures def.Some? && def.value.kind == Number ==>
      r == (if IsNumericValue(env, v) then JNum(FloatOf(env, v)) else JNull)
    ensures def.Some? && def.value.kind == Date ==>
      r == (if TruthyTimestamp(TimestampOf(env, v)) then JStr(env.formatYmd(TimestampOf(env, v).value)) else JNull)
  {
    if def.None? then Raw(v)
    else match def.value.kind
      case Number => if IsNumericValue(env, v) then JNum(FloatOf(env, v)) else JNull
      case Date =>
        var t := TimestampOf(env, v);
        if TruthyTimestamp(t) then JStr(env.formatYmd(t.value)) else JNull
      case Text => Raw(v)
      case Select => Raw(v)
  }

  /**
    Reading back a validated NUMBER, TEXT or SELECT value gives its canonical decoded form:
    the float for NUMBER and the string itself otherwise.
  */
  lemma DecodeValidated(env: Platform, def: AttributeDef, value: string)
    requires def.kind != Date && Validate(env, def, value).Ok?
    ensures def.kind == Number ==> Cast(env, Some(Validate(env, def, value).value), Some(def)) == JNum(env.toFloat(value))
    ensures def.kind != Number ==> Cast(env, Some(Validate(env, def, value).value), Some(def)) == JStr(value)
  {
  }

  /**
    Reading back a validated DATE gives its Y-m-d form, provided the platform parses that form
    again to a non-zero timestamp of the same day.
  */
  lemma DecodeValidatedDate(env: Platform, def: AttributeDef, value: string)
    requires def.kind == Date && Validate(env, def, value).Ok?
    requires var ymd := env.formatYmd(env.strtotime(value).value);
             TruthyTimestamp(env.strtotime(ymd)) && env.formatYmd(env.strtotime(ymd).value) == ymd
    ensures Cast(env, Some(Validate(env, def, value).value), Some(def)) == JStr(env.formatYmd(env.strtotime(value).value))
  {
  }

  /**
    The other side of the same check: when the Y-m-d form parses to the timestamp 0 (the first
    day of 1970 in UTC), the stored date decodes to null although it was accepted on write.
  */
  lemma EpochDateDecodesToNull(env: Platform, def: AttributeDef, value: string)
    requires def.kind == Date && Validate(env, def, value).Ok?
    requires env.strtotime(env.formatYmd(env.strtotime(value).value)) == Some(0)
    ensures Cast(env, Some(Validate(env, def, value).value), Some(def)) == JNull
  {
  }

  /** A SELECT attribute whose options are null or empty rejects every value. */
  lemma SelectWithoutOptionsRejects(env: Platform, def: AttributeDef, value: string)
    requires def.kind == Select && def.options.GetOr([]) == []
    ensures Validate(env, def, value) == Err(InvalidOption(def.name, []))
  {
  }
}
