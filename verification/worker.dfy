/**
 * The worker's `fetch` handler as a pure function of the request method,
 * the URL path, the environment bindings and the parsed body, with the
 * signer and the percent-decoder as parameters.
 */
module Worker {
  import opened Wrappers
  import opened Signer
  import opened Router
  import opened PathConfig
  import opened Batch

  /** The environment bindings the worker reads; each may be unset. */
  datatype Env = Env(accessKeyId: Option<string>, secretAccessKey: Option<string>, expiry: Option<JsValue>)

  /** What the handler answers; `Aborted` is an uncaught exception, left to the runtime to report. */
  datatype Response =
    | Redirect(status: nat, location: string)
    | MethodNotAllowed(allow: string)
    | NotFound
    | Ok(body: BatchResponse)
    | Aborted

  /** The client options before the path is read: the two credentials from the environment. */
  function Seed(env: Env): (r: Options)
    ensures r.Keys == {"accessKeyId", "secretAccessKey"}
    ensures r["accessKeyId"] == env.accessKeyId && r["secretAccessKey"] == env.secretAccessKey
  {
    map["accessKeyId" := env.accessKeyId, "secretAccessKey" := env.secretAccessKey]
  }

  /** The `fetch` handler. */
  function Fetch(verb: string, pathname: string, env: Env, body: BatchRequest,
                 signer: SignFn, decode: Decoder): (r: Response)
    ensures pathname == "/" && verb == "GET" ==> r == Redirect(302, HOMEPAGE)
    ensures pathname == "/" && verb != "GET" ==> r == MethodNotAllowed("GET")
    ensures pathname != "/" && !IsBatchPath(pathname) ==> r == NotFound
    ensures IsBatchPath(pathname) && verb != "POST" ==> r == MethodNotAllowed("POST")
    ensures r.Aborted? <==> (IsBatchPath(pathname) && verb == "POST"
      && exists i :: 0 <= i < ConfigPrefixLength(Segments(pathname)) && !Decodes(decode, Segments(pathname)[i]))
    ensures r.Ok? <==> (IsBatchPath(pathname) && verb == "POST"
      && forall i :: 0 <= i < ConfigPrefixLength(Segments(pathname)) ==> Decodes(decode, Segments(pathname)[i]))
    ensures r.Ok? ==> r.body.transfer == "basic" && |r.body.objects| == |body.objects|
  {
    match RouteRequest(verb, pathname)
    case RedirectTo(status, location) => Redirect(status, location)
    case NotAllowed(allow) => MethodNotAllowed(allow)
    case NoRoute => NotFound
    case DispatchBatch =>
      match ExtractConfig(Seed(env), Segments(pathname), decode)
      case None => Aborted
      case Some(extracted) =>
        var (options, bucket) := extracted;
        var expiresIn := ExpiresIn(map[], env.expiry);
        var signMethod := MethodFor(body.operation);
        Ok(BuildResponse(signer, options, bucket, body.operation, signMethod, expiresIn, body.objects))
  }

  /** Routing happens before anything else is read: outside the batch handler nothing but the method and path matter. */
  lemma RoutingPrecedesBody(verb: string, pathname: string, env1: Env, env2: Env, body1: BatchRequest, body2: BatchRequest,
                            signer1: SignFn, signer2: SignFn, decode1: Decoder, decode2: Decoder)
    requires !RouteRequest(verb, pathname).DispatchBatch?
    ensures Fetch(verb, pathname, env1, body1, signer1, decode1) == Fetch(verb, pathname, env2, body2, signer2, decode2)
  {
  }

  /**
   * Every requested object is answered, in order, with its own id and
   * size, authenticated, with one action keyed by the operation, signed
   * with the extracted options for the extracted bucket and the operation's
   * method, and with the batch's single expiry.
   */
  lemma FetchAnswersEveryObject(verb: string, pathname: string, env: Env, body: BatchRequest,
                                signer: SignFn, decode: Decoder, i: nat)
    requires Fetch(verb, pathname, env, body, signer, decode).Ok?
    requires i < |body.objects|
    ensures ExtractConfig(Seed(env), Segments(pathname), decode).Some?
    ensures var answer := Fetch(verb, pathname, env, body, signer, decode).body.objects[i];
      var (options, bucket) := ExtractConfig(Seed(env), Segments(pathname), decode).value;
      var obj := body.objects[i];
      && answer.oid == obj.oid
      && answer.size == obj.size
      && answer.authenticated
      && answer.actions.Keys == {body.operation}
      && answer.actions[body.operation].href == signer(options, SignTarget(bucket, obj.oid), MethodFor(body.operation))
      && answer.actions[body.operation].expiresIn == ExpiresIn(map[], env.expiry)
  {
  }

  /**
   * Uploads are signed as `PUT` and downloads as `GET`; any other
   * operation reaches the signer with the method undefined, which the
   * request it builds turns into `GET`.
   */
  lemma FetchSignsWithOperationMethod(verb: string, pathname: string, env: Env, body: BatchRequest,
                                      signer: SignFn, decode: Decoder, i: nat)
    requires Fetch(verb, pathname, env, body, signer, decode).Ok?
    requires i < |body.objects|
    ensures ExtractConfig(Seed(env), Segments(pathname), decode).Some?
    ensures var (options, bucket) := ExtractConfig(Seed(env), Segments(pathname), decode).value;
      var href := Fetch(verb, pathname, env, body, signer, decode).body.objects[i].actions[body.operation].href;
      var target := SignTarget(bucket, body.objects[i].oid);
      && (body.operation == "upload" ==> href == signer(options, target, Some(PUT)))
      && (body.operation == "download" ==> href == signer(options, target, Some(GET)))
      && (body.operation != "upload" && body.operation != "download" ==> href == signer(options, target, None))
  {
    FetchAnswersEveryObject(verb, pathname, env, body, signer, decode, i);
  }

  /**
   * All answers of one batch carry the same expiry: the environment's when
   * it is set to a non-empty, non-zero value, 3600 seconds otherwise.
   */
  lemma FetchUniformExpiry(verb: string, pathname: string, env: Env, body: BatchRequest,
                           signer: SignFn, decode: Decoder, i: nat)
    requires Fetch(verb, pathname, env, body, signer, decode).Ok?
    requires i < |body.objects|
    ensures var e := Fetch(verb, pathname, env, body, signer, decode).body.objects[i].actions[body.operation].expiresIn;
      && (env.expiry.Some? && Truthy(env.expiry.value) ==> e == env.expiry.value)
      && (!(env.expiry.Some? && Truthy(env.expiry.value)) ==> e == Num(3600))
  {
    FetchAnswersEveryObject(verb, pathname, env, body, signer, decode, i);
    ExpiresInWithoutParams(env.expiry);
  }

  /** An answered object with every link blanked out. */
  function EraseObject(o: ResponseObject): ResponseObject
  {
    ResponseObject(o.oid, o.size, o.authenticated, map k | k in o.actions :: Action("", o.actions[k].expiresIn))
  }

  /** A response with every link blanked out: what a client learns besides the signed URLs. */
  function EraseHrefs(r: Response): Response
  {
    match r
    case Ok(body) =>
      Ok(BatchResponse(body.transfer, seq(|body.objects|, i requires 0 <= i < |body.objects| => EraseObject(body.objects[i]))))
    case _ => r
  }

  /** Blanking out the links of one answer makes it independent of the client options. */
  lemma EraseAnswerIgnoresOptions(signer: SignFn, options1: Options, options2: Options, bucket: string, operation: string,
                                  signMethod: Option<Method>, expiresIn: JsValue, obj: ObjectRef)
    ensures EraseObject(Answer(signer, options1, bucket, operation, signMethod, expiresIn, obj))
         == EraseObject(Answer(signer, options2, bucket, operation, signMethod, expiresIn, obj))
  {
    var a1 := Answer(signer, options1, bucket, operation, signMethod, expiresIn, obj);
    var a2 := Answer(signer, options2, bucket, operation, signMethod, expiresIn, obj);
    assert a1.actions.Keys == a2.actions.Keys == {operation};
  }

  /** Blanking out the links of two response bodies built with different client options leaves them equal. */
  lemma EraseIgnoresOptions(signer: SignFn, options1: Options, options2: Options, bucket: string, operation: string,
                            signMethod: Option<Method>, expiresIn: JsValue, objects: seq<ObjectRef>)
    ensures EraseHrefs(Ok(BuildResponse(signer, options1, bucket, operation, signMethod, expiresIn, objects)))
         == EraseHrefs(Ok(BuildResponse(signer, options2, bucket, operation, signMethod, expiresIn, objects)))
  {
    var a1 := BuildResponse(signer, options1, bucket, operation, signMethod, expiresIn, objects).objects;
    var a2 := BuildResponse(signer, options2, bucket, operation, signMethod, expiresIn, objects).objects;
    assert |a1| == |a2| == |objects|;
    forall i | 0 <= i < |a1|
      ensures EraseObject(a1[i]) == EraseObject(a2[i])
    {
      EraseAnswerIgnoresOptions(signer, options1, options2, bucket, operation, signMethod, expiresIn, objects[i]);
    }
  }

  /**
   * The secret key reaches the response only through the signer: two
   * environments that differ only in the secret give responses that are
   * equal once the signed links are blanked out.
   */
  lemma SecretOnlyReachesSigner(verb: string, pathname: string, env1: Env, env2: Env, body: BatchRequest,
                                signer: SignFn, decode: Decoder)
    requires env1.accessKeyId == env2.accessKeyId && env1.expiry == env2.expiry
    ensures EraseHrefs(Fetch(verb, pathname, env1, body, signer, decode))
         == EraseHrefs(Fetch(verb, pathname, env2, body, signer, decode))
  {
    var segments := Segments(pathname);
    var e1 := ExtractConfig(Seed(env1), segments, decode);
    var e2 := ExtractConfig(Seed(env2), segments, decode);
    if RouteRequest(verb, pathname).DispatchBatch? && e1.Some? {
      assert e2.Some? && e1.value.1 == e2.value.1;
      EraseIgnoresOptions(signer, e1.value.0, e2.value.0, e1.value.1, body.operation,
                          MethodFor(body.operation), ExpiresIn(map[], env1.expiry), body.objects);
    }
  }
}
