/**
  The API responder's response builders: a success envelope and an error envelope, each with
  accumulated meta data and an HTTP status that the builder's own range check guards.
*/
module Responses {
  import opened Wrappers
  import opened Json

  /** A `LengthAwarePaginator` behind a resource collection: its items and page figures. */
  datatype Page = Page(items: seq<Json>, total: nat, perPage: nat, currentPage: nat, lastPage: nat,
                       firstItem: Option<nat>, lastItem: Option<nat>)

  /** The success data: any value, or a resource collection over a paginator. */
  datatype Payload = Plain(value: Json) | Paginated(page: Page)

  /**
    What the concrete builder holds beside meta and status: `SuccessResponseBuilder`'s data and
    message, or `ErrorResponseBuilder`'s error code, message and extra data.
  */
  datatype Body =
    | SuccessBody(data: Payload, message: Option<string>)
    | ErrorBody(errorCode: Option<string>, message: Option<string>, extra: Option<map<string, Json>>)

  /** The `InvalidArgumentException` that `validateStatusCode` raises for `status`. */
  datatype InvalidStatus = InvalidStatus(status: int)

  /** What `responseFactory->make(output, status, headers)` receives. */
  datatype Response = Response(output: map<string, Json>, status: int, headers: map<string, string>)

  function OptText(s: Option<string>): Json {
    if s.Some? then JStr(s.value) else JNull
  }

  function OptNum(n: Option<nat>): Json {
    if n.Some? then JNum(n.value as real) else JNull
  }

  /** The statuses each builder accepts: 1xx-3xx for success, 4xx-5xx for errors. */
  predicate ValidStatus(body: Body, status: int) {
    if body.SuccessBody? then 100 <= status < 400 else 400 <= status < 600
  }

  /** validateStatusCode: the exception for a status outside the builder's range, none otherwise. */
  function ValidateStatusCode(body: Body, status: int): (r: Option<InvalidStatus>)
    ensures r.None? <==> ValidStatus(body, status)
    ensures r.Some? ==> r.value.status == status
  {
    if body.SuccessBody? then
      if status < 100 || status >= 400 then Some(InvalidStatus(status)) else None
    else
      if status < 400 || status >= 600 then Some(InvalidStatus(status)) else None
  }

  /** Every status from 100 to 599 suits exactly one of the two builders; none outside does. */
  lemma StatusRangesPartition(data: Payload, sm: Option<string>, code: Option<string>, em: Option<string>,
                              extra: Option<map<string, Json>>, status: int)
    ensures !(ValidStatus(SuccessBody(data, sm), status) && ValidStatus(ErrorBody(code, em, extra), status))
    ensures 100 <= status < 600 <==> ValidStatus(SuccessBody(data, sm), status) || ValidStatus(ErrorBody(code, em, extra), status)
  {
  }

  /** PHP truthiness of a nullable string: null, "" and "0" are false. */
  predicate Truthy(s: Option<string>) {
    s.Some? && s.value != "" && s.value != "0"
  }

  /**
    The error message the constructor keeps: the given one when truthy, else the translation of
    `errors.<code>` when the catalogue has it (a null code reads as the empty string), else null.
  */
  function DefaultMessage(translations: map<string, string>, code: Option<string>, message: Option<string>): (r: Option<string>)
    ensures Truthy(message) ==> r == message
    ensures !Truthy(message) && "errors." + code.GetOr("") in translations ==> r == Some(translations["errors." + code.GetOr("")])
    ensures !Truthy(message) && "errors." + code.GetOr("") !in translations ==> r.None?
  {
    if Truthy(message) then message
    else
      var key := "errors." + code.GetOr("");
      if key in translations then Some(translations[key]) else None
  }

  /** The pagination block of a paginated success response. */
  function PaginationJson(p: Page): Json {
    JObj(map["total" := JNum(p.total as real), "per_page" := JNum(p.perPage as real),
             "current_page" := JNum(p.currentPage as real), "last_page" := JNum(p.lastPage as real),
             "from" := OptNum(p.firstItem), "to" := OptNum(p.lastItem)])
  }

  /** The error object: code and message, with non-empty extra data merged over them. */
  function ErrorJson(code: Option<string>, message: Option<string>, extra: Option<map<string, Json>>): map<string, Json> {
    var base := map["code" := OptText(code), "message" := OptText(message)];
    if extra.Some? && extra.value != map[] then Merge(base, extra.value) else base
  }

  /** The serialised envelope of a builder with `body` and accumulated `meta`. */
  function Output(body: Body, meta: map<string, Json>): map<string, Json> {
    var withMeta := if meta != map[] then map["meta" := JObj(meta)] else map[];
    match body
    case SuccessBody(data, message) =>
      var head := map["success" := JBool(true), "message" := OptText(message)] + withMeta;
      (match data
       case Plain(v) => head["data" := v]
       case Paginated(p) => head["data" := JArr(p.items)]["pagination" := PaginationJson(p)])
    case ErrorBody(code, message, extra) =>
      map["success" := JBool(false), "error" := JObj(ErrorJson(code, message, extra))] + withMeta
  }

  /** Both envelopes say whether they succeeded, and carry meta exactly when some was added. */
  lemma OutputCommon(body: Body, meta: map<string, Json>)
    ensures "success" in Output(body, meta) && Output(body, meta)["success"] == JBool(body.SuccessBody?)
    ensures "meta" in Output(body, meta) <==> meta != map[]
    ensures "meta" in Output(body, meta) ==> Output(body, meta)["meta"] == JObj(meta)
  {
  }

  /**
    A success envelope has a message (null allowed) and data: the value itself, or the page items
    with a pagination block for a paginated collection.
  */
  lemma SuccessOutputShape(data: Payload, message: Option<string>, meta: map<string, Json>)
    ensures var out := Output(SuccessBody(data, message), meta);
      && "message" in out && out["message"] == OptText(message)
      && "data" in out
      && (data.Plain? ==> out["data"] == data.value && "pagination" !in out)
      && (data.Paginated? ==> out["data"] == JArr(data.page.items) && "pagination" in out &&
                              out["pagination"] == PaginationJson(data.page))
      && out.Keys == {"success", "message", "data"} + (if meta != map[] then {"meta"} else {}) +
                     (if data.Paginated? then {"pagination"} else {})
  {
  }

  /**
    An error envelope has no data key of its own: the error object holds code and message,
    overridden by any extra data under the same keys.
  */
  lemma ErrorOutputShape(code: Option<string>, message: Option<string>, extra: Option<map<string, Json>>, meta: map<string, Json>)
    ensures var out := Output(ErrorBody(code, message, extra), meta);
      && out.Keys == {"success", "error"} + (if meta != map[] then {"meta"} else {})
      && out["error"].JObj?
      && var err := out["error"].fields;
         && "code" in err && "message" in err
         && (extra.None? || extra.value == map[] ==> err == map["code" := OptText(code), "message" := OptText(message)])
         && (extra.Some? ==> forall k :: k in extra.value ==> k in err && err[k] == extra.value[k])
         && (extra.Some? && "code" !in extra.value ==> err["code"] == OptText(code))
         && (extra.Some? && "message" !in extra.value ==> err["message"] == OptText(message))
  {
  }

  /** The builder: `ResponseBuilder` with the state of its success or error subclass. */
  class ResponseBuilder {
    var meta: map<string, Json>
    var status: int
    var body: Body

    /** new SuccessResponseBuilder(data, message): status 200, no meta. */
    constructor Success(data: Payload, message: Option<string>)
      ensures body == SuccessBody(data, message) && status == 200 && meta == map[]
    {
      body := SuccessBody(data, message);
      status := 200;
      meta := map[];
    }

    /** new ErrorResponseBuilder(code, message): status 400, no meta, no data, message defaulted. */
    constructor Error(translations: map<string, string>, code: Option<string>, message: Option<string>)
      ensures body == ErrorBody(code, DefaultMessage(translations, code, message), None) && status == 400 && meta == map[]
    {
      var msg: Option<string>;
      if Truthy(message) {
        msg := message;
      } else if "errors." + code.GetOr("") in translations {
        msg := Some(translations["errors." + code.GetOr("")]);
      } else {
        msg := None;
      }
      body := ErrorBody(code, msg, None);
      status := 400;
      meta := map[];
    }

    /** meta(m): merge m into the accumulated meta, later keys winning; the same builder comes back. */
    method Meta(m: map<string, Json>) returns (self: ResponseBuilder)
      modifies this
      ensures self == this
      ensures meta == Merge(old(meta), m)
      ensures status == old(status) && body == old(body)
    {
      meta := Merge(meta, m);
      self := this;
    }

    /** data(d) of the error builder: merge d into the extra data, a null on either side counting as empty. */
    method Data(d: Option<map<string, Json>>) returns (self: ResponseBuilder)
      requires body.ErrorBody?
      modifies this
      ensures self == this
      ensures body == old(body).(extra := Some(Merge(old(body).extra.GetOr(map[]), d.GetOr(map[]))))
      ensures meta == old(meta) && status == old(status)
    {
      body := body.(extra := Some(Merge(body.extra.GetOr(map[]), d.GetOr(map[]))));
      self := this;
    }

    /** setStatusCode: the status is assigned first and checked afterwards, so a rejected one stays. */
    method SetStatusCode(s: int) returns (err: Option<InvalidStatus>)
      modifies this
      ensures status == s && meta == old(meta) && body == old(body)
      ensures err == ValidateStatusCode(body, s)
    {
      status := s;
      err := ValidateStatusCode(body, status);
    }

    /** setStatus: set and check the status; the same builder comes back when it is accepted. */
    method SetStatus(s: int) returns (r: Result<ResponseBuilder, InvalidStatus>)
      modifies this
      ensures status == s && meta == old(meta) && body == old(body)
      ensures r.Ok? <==> ValidStatus(body, s)
      ensures r.Ok? ==> r.value == this
      ensures r.Err? ==> r.error == InvalidStatus(s)
    {
      var err := SetStatusCode(s);
      if err.Some? {
        return Err(err.value);
      }
      return Ok(this);
    }

    /** getOutput: build the envelope step by step. */
    method GetOutput() returns (output: map<string, Json>)
      ensures output == Output(body, meta)
    {
      match body {
        case SuccessBody(data, message) =>
          output := map["success" := JBool(true), "message" := OptText(message)];
          if meta != map[] {
            output := output["meta" := JObj(meta)];
          }
          if data.Paginated? {
            output := output["data" := JArr(data.page.items)];
            output := output["pagination" := PaginationJson(data.page)];
            return;
          }
          output := output["data" := data.value];
        case ErrorBody(code, message, extra) =>
          output := map["success" := JBool(false), "error" := JObj(map["code" := OptText(code), "message" := OptText(message)])];
          if meta != map[] {
            output := output["meta" := JObj(meta)];
          }
          if extra.Some? && extra.value != map[] {
            output := output["error" := JObj(Merge(output["error"].fields, extra.value))];
          }
      }
    }

    /**
      respond(status, headers): a given status is set and checked first (a rejected one raises and
      stays assigned); without one the current status is used as it is.
    */
    method Respond(s: Option<int>, headers: map<string, string>) returns (r: Result<Response, InvalidStatus>)
      modifies this
      ensures meta == old(meta) && body == old(body)
      ensures s.None? ==> status == old(status) && r == Ok(Response(Output(body, meta), status, headers))
      ensures s.Some? ==> status == s.value
      ensures s.Some? && ValidStatus(body, s.value) ==> r == Ok(Response(Output(body, meta), s.value, headers))
      ensures s.Some? && !ValidStatus(body, s.value) ==> r == Err(InvalidStatus(s.value))
    {
      if s.Some? {
        var err := SetStatusCode(s.value);
        if err.Some? {
          return Err(err.value);
        }
      }
      var output := GetOutput();
      return Ok(Response(output, status, headers));
    }
  }

  /** A builder made by either constructor starts with a status its own check accepts. */
  lemma DefaultStatusesValid(data: Payload, sm: Option<string>, translations: map<string, string>,
                             code: Option<string>, em: Option<string>)
    ensures ValidStatus(SuccessBody(data, sm), 200)
    ensures ValidStatus(ErrorBody(code, DefaultMessage(translations, code, em), None), 400)
  {
  }
}
