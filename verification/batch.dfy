/**
 * The batch response builder: an order-preserving map over the requested
 * objects, each answered with one signed action for the requested
 * operation, and the `expires_in` fallback chain.
 */
module Batch {
  import opened Wrappers
  import opened Signer

  /** One requested object: its content id and size. */
  datatype ObjectRef = ObjectRef(oid: string, size: int)

  /** The parsed request body. */
  datatype BatchRequest = BatchRequest(operation: string, objects: seq<ObjectRef>)

  /** A JavaScript value `expires_in` can hold: a number, or a string taken from an environment binding. */
  datatype JsValue = Num(n: int) | Text(s: string)

  /** JavaScript truthiness, as `||` uses it: zero and the empty string are falsy. */
  predicate Truthy(v: JsValue)
  {
    match v
    case Num(n) => n != 0
    case Text(s) => s != ""
  }

  /** One signed action: where to transfer and for how long the client may assume it works. */
  datatype Action = Action(href: string, expiresIn: JsValue)

  /** One answered object. */
  datatype ResponseObject = ResponseObject(oid: string, size: int, authenticated: bool, actions: map<string, Action>)

  /** The response body. */
  datatype BatchResponse = BatchResponse(transfer: string, objects: seq<ResponseObject>)

  /**
   * `params.expiry || env.EXPIRY || EXPIRY`: the first truthy of the
   * request parameters' expiry, the environment's, and 3600.
   */
  function ExpiresIn(params: map<string, JsValue>, envExpiry: Option<JsValue>): (r: JsValue)
    ensures Truthy(r)
  {
    if "expiry" in params && Truthy(params["expiry"]) then params["expiry"]
    else if envExpiry.Some? && Truthy(envExpiry.value) then envExpiry.value
    else Num(EXPIRY)
  }

  /**
   * With no request parameters (the worker never fills them), a set
   * environment expiry is used as it is, and an unset, empty or zero one
   * falls back to the 3600 seconds the sign target also asks for.
   */
  lemma ExpiresInWithoutParams(envExpiry: Option<JsValue>)
    ensures envExpiry.Some? && Truthy(envExpiry.value) ==> ExpiresIn(map[], envExpiry) == envExpiry.value
    ensures !(envExpiry.Some? && Truthy(envExpiry.value)) ==> ExpiresIn(map[], envExpiry) == Num(3600)
  {
  }

  /** The answer for one object: its id and size, authenticated, and the single action for `operation`. */
  function Answer(signer: SignFn, options: Options, bucket: string, operation: string,
                  verb: Option<Method>, expiresIn: JsValue, obj: ObjectRef): (r: ResponseObject)
    ensures r.oid == obj.oid && r.size == obj.size && r.authenticated
    ensures r.actions.Keys == {operation}
    ensures r.actions[operation].href == signer(options, SignTarget(bucket, obj.oid), verb)
    ensures r.actions[operation].expiresIn == expiresIn
  {
    var href := Sign(signer, options, bucket, obj.oid, verb);
    ResponseObject(obj.oid, obj.size, true, map[operation := Action(href, expiresIn)])
  }

  /**
   * The answers for all objects, in request order: one answer per object,
   * the `i`-th being the answer for the `i`-th object.
   */
  function AnswerAll(signer: SignFn, options: Options, bucket: string, operation: string,
                     verb: Option<Method>, expiresIn: JsValue, objects: seq<ObjectRef>): (r: seq<ResponseObject>)
    ensures |r| == |objects|
    ensures forall i :: 0 <= i < |r| ==> r[i] == Answer(signer, options, bucket, operation, verb, expiresIn, objects[i])
  {
    if |objects| == 0 then []
    else
      var first := Answer(signer, options, bucket, operation, verb, expiresIn, objects[0]);
      [first] + AnswerAll(signer, options, bucket, operation, verb, expiresIn, objects[1..])
  }

  /**
   * Answering is independent per object: the answers to a concatenation
   * of two runs of objects are the answers to each run, concatenated in
   * order, which is the order `Promise.all` returns them in.
   */
  lemma AnswerAllConcat(signer: SignFn, options: Options, bucket: string, operation: string,
                         verb: Option<Method>, expiresIn: JsValue, a: seq<ObjectRef>, b: seq<ObjectRef>)
    ensures AnswerAll(signer, options, bucket, operation, verb, expiresIn, a + b)
      == AnswerAll(signer, options, bucket, operation, verb, expiresIn, a)
       + AnswerAll(signer, options, bucket, operation, verb, expiresIn, b)
  {
    var whole := AnswerAll(signer, options, bucket, operation, verb, expiresIn, a + b);
    var parts := AnswerAll(signer, options, bucket, operation, verb, expiresIn, a)
               + AnswerAll(signer, options, bucket, operation, verb, expiresIn, b);
    forall i | 0 <= i < |whole|
      ensures whole[i] == parts[i]
    {
      AnswerAllConcatAt(signer, options, bucket, operation, verb, expiresIn, a, b, i);
    }
  }

  /** One position of `AnswerAllConcat`: the answer at `i` comes from whichever run holds the `i`-th object. */
  lemma AnswerAllConcatAt(signer: SignFn, options: Options, bucket: string, operation: string,
                          verb: Option<Method>, expiresIn: JsValue, a: seq<ObjectRef>, b: seq<ObjectRef>, i: int)
    requires 0 <= i < |a| + |b|
    ensures AnswerAll(signer, options, bucket, operation, verb, expiresIn, a + b)[i]
      == (AnswerAll(signer, options, bucket, operation, verb, expiresIn, a)
        + AnswerAll(signer, options, bucket, operation, verb, expiresIn, b))[i]
  {
    var whole := AnswerAll(signer, options, bucket, operation, verb, expiresIn, a + b);
    var left := AnswerAll(signer, options, bucket, operation, verb, expiresIn, a);
    var right := AnswerAll(signer, options, bucket, operation, verb, expiresIn, b);
    var obj := (a + b)[i];
    if i < |a| {
      assert obj == a[i];
      assert whole[i] == Answer(signer, options, bucket, operation, verb, expiresIn, obj) == left[i];
      assert (left + right)[i] == left[i];
    } else {
      assert obj == b[i - |a|];
      assert whole[i] == Answer(signer, options, bucket, operation, verb, expiresIn, obj) == right[i - |a|];
      assert (left + right)[i] == right[i - |a|];
    }
  }

  /** The response body: basic transfers, and the answers in request order. */
  function BuildResponse(signer: SignFn, options: Options, bucket: string, operation: string,
                         verb: Option<Method>, expiresIn: JsValue, objects: seq<ObjectRef>): (r: BatchResponse)
    ensures r.transfer == "basic"
    ensures |r.objects| == |objects|
  {
    BatchResponse("basic", AnswerAll(signer, options, bucket, operation, verb, expiresIn, objects))
  }
}
