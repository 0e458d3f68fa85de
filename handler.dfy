/**
  The response middleware: every route hands it an error value and a result
  value, and it decides the HTTP status, the `success` flag and the body.
  The decision rests on JavaScript truthiness, so JavaScript values are
  modelled by a small datatype whose object case carries a payload of the
  caller's choosing.
 */
module Handler {

  /** A JavaScript value. Numbers are integers (NaN and -0 are not modelled). */
  datatype JsValue<O> =
    | Null
    | Undefined
    | Bool(b: bool)
    | Int(n: int)
    | Str(s: string)
    | Obj(o: O)

  /**
    JavaScript truthiness: every object is truthy, every primitive except the
    six falsy ones too. A value is falsy exactly when it is one of those listed.
   */
  predicate Truthy<O>(v: JsValue<O>): (b: bool)
    ensures b <==> !IsListedFalsy(v)
  {
    match v
    case Null => false
    case Undefined => false
    case Bool(b) => b
    case Int(n) => n != 0
    case Str(s) => s != ""
    case Obj(_) => true
  }

  /** The falsy values, listed one by one (NaN and -0 aside). */
  ghost predicate IsListedFalsy<O>(v: JsValue<O>)
  {
    v == Null || v == Undefined || v == Bool(false) || v == Int(0) || v == Str("")
  }

  /** What the middleware writes: the status code and the `{success, response}` body. */
  datatype Response<O> = Response(status: nat, success: bool, response: JsValue<O>)

  /**
    The middleware's decision. A truthy error is a server error carrying the
    error itself; otherwise a falsy result other than the number 0 is a bad
    request with a null body; anything else succeeds with the result as body.
   */
  function Handle<O>(err: JsValue<O>, docs: JsValue<O>): (r: Response<O>)
    ensures r.status == 200 || r.status == 400 || r.status == 500
    ensures r.success <==> r.status == 200
    ensures r.status == 500 <==> Truthy(err)
    ensures r.status == 500 ==> r.response == err
    ensures r.status == 400 ==> r.response == Null
    ensures r.status == 200 ==> r.response == docs
    ensures !Truthy(err) && docs == Int(0) ==> r.status == 200
    ensures !Truthy(err) && Truthy(docs) ==> r.status == 200
  {
    if Truthy(err) then
      Response(500, false, err)
    else if !Truthy(docs) && !(docs.Int? && docs.n == 0) then
      Response(400, false, Null)
    else
      Response(200, true, docs)
  }

  /**
    A bad request happens exactly when there is no error and the result is
    null, undefined, false or the empty string: the number 0 is let through.
   */
  lemma BadRequestExactly<O>(err: JsValue<O>, docs: JsValue<O>)
    ensures Handle(err, docs).status == 400 <==>
      !Truthy(err) && (docs == Null || docs == Undefined || docs == Bool(false) || docs == Str(""))
  {
  }

  /** A thrown non-empty message is always a server error, whatever the result value is. */
  lemma ThrownMessageIsServerError<O>(msg: string, docs: JsValue<O>)
    requires msg != ""
    ensures Handle(Str(msg), docs) == Response(500, false, Str(msg))
  {
  }
}
