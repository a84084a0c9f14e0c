/** client/src/api.js: getErrorMessage, which picks the text to show for a failed request
    out of the error object the HTTP client rejects with. */
module Api {

  /** The JavaScript values the error can hold. Numbers are integers here (NaN is not). */
  datatype JsValue =
    | Undefined
    | Null
    | Bool(b: bool)
    | Num(n: int)
    | Str(s: string)
    | Obj(fields: map<string, JsValue>)

  /** How getErrorMessage ends: with a value, or by throwing a TypeError. */
  datatype Completion = Returned(value: JsValue) | Threw

  predicate Nullish(v: JsValue) {
    v.Undefined? || v.Null?
  }

  /** JavaScript truthiness. */
  predicate Truthy(v: JsValue) {
    match v
    case Undefined => false
    case Null => false
    case Bool(b) => b
    case Num(n) => n != 0
    case Str(s) => s != ""
    case Obj(_) => true
  }

  /** v?.name: undefined on a nullish value or a missing property. */
  function Get(v: JsValue, name: string): (r: JsValue)
    ensures v.Obj? && name in v.fields ==> r == v.fields[name]
    ensures !(v.Obj? && name in v.fields) ==> r == Undefined
  {
    if v.Obj? && name in v.fields then v.fields[name] else Undefined
  }

  /** err?.response?.data?.<name>. */
  function ResponseField(err: JsValue, name: string): JsValue {
    Get(Get(Get(err, "response"), "data"), name)
  }

  /** getErrorMessage (api.js:8-12): the server's `error` text when it is truthy; else the
      server's `message` text when it is truthy; else the error's own message when it is
      truthy; else 'Request failed'. Reading `err.message` on a nullish err throws. */
  function GetErrorMessage(err: JsValue): (r: Completion)
    ensures Truthy(ResponseField(err, "error")) ==> r == Returned(ResponseField(err, "error"))
    ensures !Truthy(ResponseField(err, "error")) && Truthy(ResponseField(err, "message")) ==>
      r == Returned(ResponseField(err, "message"))
    ensures r.Threw? <==> Nullish(err)
    ensures !Truthy(ResponseField(err, "error")) && !Truthy(ResponseField(err, "message")) && !Nullish(err) ==>
      r == Returned(if Truthy(Get(err, "message")) then Get(err, "message") else Str("Request failed"))
    ensures r.Returned? ==> Truthy(r.value)
  {
    if Truthy(ResponseField(err, "error")) then Returned(ResponseField(err, "error"))
    else if Truthy(ResponseField(err, "message")) then Returned(ResponseField(err, "message"))
    else if Nullish(err) then Threw
    else if Truthy(Get(err, "message")) then Returned(Get(err, "message"))
    else Returned(Str("Request failed"))
  }

  /** Whatever the error object holds, the page shows a non-empty message. */
  lemma MessageNeverFalsy(err: JsValue)
    requires !Nullish(err)
    ensures GetErrorMessage(err).Returned? && Truthy(GetErrorMessage(err).value)
  {
  }

  /** A network failure (no response) shows the error's own message, or 'Request failed'. */
  lemma NoResponseFallsBack(err: JsValue)
    requires err.Obj? && "response" !in err.fields
    ensures GetErrorMessage(err) ==
      Returned(if Truthy(Get(err, "message")) then Get(err, "message") else Str("Request failed"))
  {
  }
}
