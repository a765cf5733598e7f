/**
  The `ConvertsExceptions` trait of the API responder: an ordered table from framework exception
  classes to API exception classes, scanned for the first class the exception is an instance of.
*/
module ConvertsExceptions {
  import opened Wrappers

  /** A fully qualified PHP class name. */
  type ClassName = string

  /** The validator a `ValidationException` carries: its failed fields and their messages. */
  datatype Validator = Validator(messages: map<string, seq<string>>)

  /**
    An exception, described by every class it is an instance of (its own class, its parents and
    its interfaces) and, for a validation failure, its validator.
  */
  datatype Exception = Exception(classes: set<ClassName>, validator: Option<Validator>)

  /** `$exception instanceof $source`. */
  predicate InstanceOf(e: Exception, source: ClassName) {
    source in e.classes
  }

  /** A table target: a class to instantiate and throw, or the callback for validation failures. */
  datatype Target = ThrowNew(cls: ClassName) | ValidationCallback

  /** What the conversion throws. */
  datatype Converted = Thrown(cls: ClassName) | ValidationFailed(validator: Option<Validator>)

  const AuthenticationException: ClassName := "Illuminate\\Auth\\AuthenticationException"
  const AuthorizationException: ClassName := "Illuminate\\Auth\\Access\\AuthorizationException"
  const NotFoundHttpException: ClassName := "Symfony\\Component\\HttpKernel\\Exception\\NotFoundHttpException"
  const ModelNotFoundException: ClassName := "Illuminate\\Database\\Eloquent\\ModelNotFoundException"
  const BaseRelationNotFoundException: ClassName := "Illuminate\\Database\\Eloquent\\RelationNotFoundException"
  const BaseThrottleRequestsException: ClassName := "Illuminate\\Http\\Exceptions\\ThrottleRequestsException"
  const ValidationException: ClassName := "Illuminate\\Validation\\ValidationException"

  const UnauthenticatedException: ClassName := "App\\Support\\ApiResponder\\Exceptions\\Http\\UnauthenticatedException"
  const UnauthorizedException: ClassName := "App\\Support\\ApiResponder\\Exceptions\\Http\\UnauthorizedException"
  const PageNotFoundException: ClassName := "App\\Support\\ApiResponder\\Exceptions\\Http\\PageNotFoundException"
  const RelationNotFoundException: ClassName := "App\\Support\\ApiResponder\\Exceptions\\Http\\RelationNotFoundException"
  const ThrottleRequestsException: ClassName := "App\\Support\\ApiResponder\\Exceptions\\Http\\ThrottleRequestsException"

  /** What one table target does to the matched exception: its callback throws, or its class is thrown. */
  function Apply(target: Target, e: Exception): Converted {
    match target
    case ThrowNew(cls) => Thrown(cls)
    case ValidationCallback => ValidationFailed(e.validator)
  }

  /** The first index of the table whose source the exception is an instance of. */
  predicate FirstMatchAt(e: Exception, table: seq<(ClassName, Target)>, i: nat) {
    i < |table| && InstanceOf(e, table[i].0) && forall j :: 0 <= j < i ==> !InstanceOf(e, table[j].0)
  }

  /**
    convert: the first entry whose source the exception is an instance of decides what is thrown;
    when none matches, nothing is thrown (None).
  */
  function Convert(e: Exception, table: seq<(ClassName, Target)>): (r: Option<Converted>)
    ensures r.None? <==> forall i :: 0 <= i < |table| ==> !InstanceOf(e, table[i].0)
    ensures r.Some? ==> exists i: nat :: FirstMatchAt(e, table, i) && r.value == Apply(table[i].1, e)
  {
    if table == [] then None
    else if InstanceOf(e, table[0].0) then
      assert FirstMatchAt(e, table, 0);
      Some(Apply(table[0].1, e))
    else
      var r := Convert(e, table[1..]);
      if r.Some? then
        var i: nat :| FirstMatchAt(e, table[1..], i) && r.value == Apply(table[1..][i].1, e);
        assert FirstMatchAt(e, table, i + 1);
        r
      else
        assert forall i :: 1 <= i < |table| ==> table[i] == table[1..][i - 1];
        r
  }

  /** The first match is unique, so Convert acts on exactly that entry. */
  lemma ConvertAtFirstMatch(e: Exception, table: seq<(ClassName, Target)>, i: nat)
    requires FirstMatchAt(e, table, i)
    ensures Convert(e, table) == Some(Apply(table[i].1, e))
  {
    var r := Convert(e, table);
    assert r.Some?;
    var k: nat :| FirstMatchAt(e, table, k) && r.value == Apply(table[k].1, e);
    assert InstanceOf(e, table[i].0) && InstanceOf(e, table[k].0);
    assert k == i;
  }

  /** The default table, in the order it is written. */
  function DefaultTable(): seq<(ClassName, Target)> {
    [ (AuthenticationException, ThrowNew(UnauthenticatedException)),
      (AuthorizationException, ThrowNew(UnauthorizedException)),
      (NotFoundHttpException, ThrowNew(PageNotFoundException)),
      (ModelNotFoundException, ThrowNew(PageNotFoundException)),
      (BaseRelationNotFoundException, ThrowNew(RelationNotFoundException)),
      (BaseThrottleRequestsException, ThrowNew(ThrottleRequestsException)),
      (ValidationException, ValidationCallback) ]
  }

  /** `array_diff_key(table, array_flip(dontConvert))`: the entries whose source is not excluded, in order. */
  function Without(table: seq<(ClassName, Target)>, dontConvert: seq<ClassName>): (r: seq<(ClassName, Target)>)
    ensures |r| <= |table|
    ensures forall x :: x in r <==> x in table && x.0 !in dontConvert
  {
    if table == [] then []
    else (if table[0].0 in dontConvert then [] else [table[0]]) + Without(table[1..], dontConvert)
  }

  /** The exception as the scan sees it once the excluded classes no longer count. */
  function Excluding(e: Exception, dontConvert: seq<ClassName>): (r: Exception)
    ensures forall c :: InstanceOf(r, c) <==> InstanceOf(e, c) && c !in dontConvert
  {
    Exception(e.classes - (set c | c in dontConvert), e.validator)
  }

  /** Dropping excluded sources before the scan is the same as skipping them during it. */
  lemma {:induction false} ConvertWithout(e: Exception, table: seq<(ClassName, Target)>, dontConvert: seq<ClassName>)
    ensures Convert(e, Without(table, dontConvert)) == Convert(Excluding(e, dontConvert), table)
  {
    var e' := Excluding(e, dontConvert);
    if table != [] {
      ConvertWithout(e, table[1..], dontConvert);
      var rest := Without(table[1..], dontConvert);
      if table[0].0 in dontConvert {
        assert Without(table, dontConvert) == rest;
        assert !InstanceOf(e', table[0].0);
      } else {
        var w := Without(table, dontConvert);
        assert w == [table[0]] + rest;
        assert w[0] == table[0] && w[1..] == rest;
        assert InstanceOf(e, table[0].0) <==> InstanceOf(e', table[0].0);
      }
    }
  }

  /** convertDefaultException: the default table minus `dontConvert`. */
  function ConvertDefaultException(e: Exception, dontConvert: seq<ClassName>): Option<Converted> {
    Convert(e, Without(DefaultTable(), dontConvert))
  }

  /** The framework sources of the default table, none listed twice. */
  lemma DefaultSourcesDistinct()
    ensures forall i, j :: 0 <= i < j < |DefaultTable()| ==> DefaultTable()[i].0 != DefaultTable()[j].0
  {
  }

  /**
    An exception that is an instance of exactly one default source, not excluded, is converted to
    that source's target: each of the seven mappings of the default table.
  */
  lemma {:induction false} DefaultConversion(e: Exception, dontConvert: seq<ClassName>, i: nat)
    requires i < |DefaultTable()| && DefaultTable()[i].0 !in dontConvert
    requires forall j :: 0 <= j < |DefaultTable()| ==> (InstanceOf(e, DefaultTable()[j].0) <==> j == i)
    ensures ConvertDefaultException(e, dontConvert) == Some(Apply(DefaultTable()[i].1, e))
  {
    var t := DefaultTable();
    var e' := Excluding(e, dontConvert);
    ConvertWithout(e, t, dontConvert);
    assert InstanceOf(e', t[i].0);
    ConvertAtFirstMatch(e', t, i);
  }

  /** An exception of a single default source class, not excluded, is converted by that entry. */
  lemma SingleSourceConversion(v: Option<Validator>, i: nat)
    requires i < |DefaultTable()|
    ensures var e := Exception({DefaultTable()[i].0}, v);
      ConvertDefaultException(e, []) == Some(Apply(DefaultTable()[i].1, e))
  {
    DefaultSourcesDistinct();
    DefaultConversion(Exception({DefaultTable()[i].0}, v), [], i);
  }

  /** The mappings spelled out: an exception of one framework class becomes its API counterpart. */
  lemma DefaultTargets(v: Option<Validator>)
    ensures ConvertDefaultException(Exception({AuthenticationException}, v), []) == Some(Thrown(UnauthenticatedException))
    ensures ConvertDefaultException(Exception({AuthorizationException}, v), []) == Some(Thrown(UnauthorizedException))
    ensures ConvertDefaultException(Exception({NotFoundHttpException}, v), []) == Some(Thrown(PageNotFoundException))
    ensures ConvertDefaultException(Exception({ModelNotFoundException}, v), []) == Some(Thrown(PageNotFoundException))
    ensures ConvertDefaultException(Exception({BaseRelationNotFoundException}, v), []) == Some(Thrown(RelationNotFoundException))
    ensures ConvertDefaultException(Exception({BaseThrottleRequestsException}, v), []) == Some(Thrown(ThrottleRequestsException))
    ensures ConvertDefaultException(Exception({ValidationException}, v), []) == Some(ValidationFailed(v))
  {
    SingleSourceConversion(v, 0);
    SingleSourceConversion(v, 1);
    SingleSourceConversion(v, 2);
    SingleSourceConversion(v, 3);
    SingleSourceConversion(v, 4);
    SingleSourceConversion(v, 5);
    SingleSourceConversion(v, 6);
  }

  /** An exception whose default sources are all excluded passes through unconverted. */
  lemma ExcludedPassThrough(e: Exception, dontConvert: seq<ClassName>)
    requires forall j :: 0 <= j < |DefaultTable()| && InstanceOf(e, DefaultTable()[j].0) ==> DefaultTable()[j].0 in dontConvert
    ensures ConvertDefaultException(e, dontConvert) == None
  {
    var w := Without(DefaultTable(), dontConvert);
    forall i | 0 <= i < |w| ensures !InstanceOf(e, w[i].0) {
      assert w[i] in w;
    }
  }
}
