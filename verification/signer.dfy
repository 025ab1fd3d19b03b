/**
 * The operation-to-method table and the request target handed to the
 * SigV4 query signer. The signer itself (the `aws4fetch` client) is opaque
 * and enters the model as a function-typed parameter.
 */
module Signer {
  import opened Wrappers
  import opened Strings

  /** The HTTP methods a batch can be signed for. */
  datatype Method = GET | PUT

  /**
   * The options the S3 client is built from: option name to value. `None`
   * is an environment binding that was not set, which JavaScript still
   * stores under its key as `undefined`.
   */
  type Options = map<string, Option<string>>

  /**
   * The signing client at the instant the request is served, opaque: from
   * the client options, the request target and the request method it builds
   * the request and makes the pre-signed URL. The method is absent when the
   * operation is unknown; a request built without one is a `GET`.
   */
  type SignFn = (Options, string, Option<Method>) -> string

  /** Seconds of signature validity requested in every sign target. */
  const EXPIRY: nat := 3600

  /** The operation-to-method table: uploads are signed as `PUT`, downloads as `GET`, anything else has no method. */
  function MethodFor(operation: string): (r: Option<Method>)
    ensures r == Some(PUT) <==> operation == "upload"
    ensures r == Some(GET) <==> operation == "download"
    ensures r.None? <==> operation != "upload" && operation != "download"
  {
    if operation == "upload" then Some(PUT)
    else if operation == "download" then Some(GET)
    else None
  }

  /** The decimal digit character for a value below ten. */
  function Digit(d: nat): (c: char)
    requires d < 10
    ensures '0' <= c <= '9'
  {
    ('0' as nat + d) as char
  }

  /** The value of a string of decimal digits. */
  function DecimalValue(s: string): nat
    requires forall i :: 0 <= i < |s| ==> '0' <= s[i] <= '9'
  {
    if |s| == 0 then 0
    else DecimalValue(s[..|s| - 1]) * 10 + (s[|s| - 1] as nat - '0' as nat)
  }

  /** How a template literal renders a non-negative integer: its decimal digits, no leading zero. */
  function Decimal(n: nat): (r: string)
    ensures 1 <= |r|
    ensures forall i :: 0 <= i < |r| ==> '0' <= r[i] <= '9'
    ensures |r| > 1 ==> r[0] != '0'
    decreases n
  {
    if n < 10 then [Digit(n)] else Decimal(n / 10) + [Digit(n % 10)]
  }

  /** Reading the rendered digits back gives the number. */
  lemma {:induction false} DecimalRoundTrip(n: nat)
    ensures DecimalValue(Decimal(n)) == n
    decreases n
  {
    if n >= 10 {
      var r := Decimal(n);
      assert r[..|r| - 1] == Decimal(n / 10);
      DecimalRoundTrip(n / 10);
    }
  }

  /**
   * The URL the worker asks the client to sign for one object: a
   * virtual-hosted URL of `bucket/path` whose query asks for the signature
   * to stay valid for `EXPIRY`, rendered as `3600`.
   */
  function SignTarget(bucket: string, path: string): (r: string)
    ensures r == "https://" + bucket + "/" + path + "?X-Amz-Expires=" + "3600"
  {
    ExpiryRendering();
    "https://" + bucket + "/" + path + "?X-Amz-Expires=" + Decimal(EXPIRY)
  }

  /** The template literal renders `EXPIRY` as `3600`. */
  lemma ExpiryRendering()
    ensures Decimal(EXPIRY) == "3600"
  {
    assert Decimal(36) == Decimal(3) + ['6'];
    assert Decimal(360) == Decimal(36) + ['0'];
    assert Decimal(3600) == Decimal(360) + ['0'];
  }

  /** The `sign` helper: the client signs a request for the object's target with the operation's method. */
  function Sign(signer: SignFn, options: Options, bucket: string, path: string, verb: Option<Method>): (r: string)
    ensures r == signer(options, "https://" + bucket + "/" + path + "?X-Amz-Expires=" + "3600", verb)
  {
    signer(options, SignTarget(bucket, path), verb)
  }

  /**
   * The signed link depends on the bucket and the object only through the
   * `bucket/path` string: two objects whose bucket and path read the same
   * once joined by `/` get the same link, whatever the client does.
   */
  lemma SignSameResource(signer: SignFn, options: Options, b1: string, p1: string, b2: string, p2: string, verb: Option<Method>)
    requires b1 + "/" + p1 == b2 + "/" + p2
    ensures Sign(signer, options, b1, p1, verb) == Sign(signer, options, b2, p2, verb)
  {
    SignTargetDeterminesResource(b1, p1, b2, p2);
  }

  /** Two targets are equal exactly when they name the same `bucket/path` string. */
  lemma SignTargetDeterminesResource(b1: string, p1: string, b2: string, p2: string)
    ensures SignTarget(b1, p1) == SignTarget(b2, p2) <==> b1 + "/" + p1 == b2 + "/" + p2
  {
    var q := "?X-Amz-Expires=" + Decimal(EXPIRY);
    var r1, r2 := b1 + "/" + p1, b2 + "/" + p2;
    assert SignTarget(b1, p1) == "https://" + r1 + q;
    assert SignTarget(b2, p2) == "https://" + r2 + q;
    if SignTarget(b1, p1) == SignTarget(b2, p2) {
      assert r1 == ("https://" + r1 + q)[8..|"https://" + r1 + q| - |q|];
      assert r2 == ("https://" + r2 + q)[8..|"https://" + r2 + q| - |q|];
    }
  }

  /**
   * When object ids hold no `/` (content hashes never do), the target
   * determines both the bucket path and the object id.
   */
  lemma SignTargetSeparatesObjects(b1: string, p1: string, b2: string, p2: string)
    requires '/' !in p1 && '/' !in p2
    ensures SignTarget(b1, p1) == SignTarget(b2, p2) <==> b1 == b2 && p1 == p2
  {
    SignTargetDeterminesResource(b1, p1, b2, p2);
    if SignTarget(b1, p1) == SignTarget(b2, p2) {
      assert b1 + "/" + p1 == b1 + ['/'] + p1;
      assert b2 + "/" + p2 == b2 + ['/'] + p2;
      SplitAround(b1, '/', p1);
      SplitAround(b2, '/', p2);
      var s1, s2 := Split(b1, '/'), Split(b2, '/');
      assert Split(p1, '/') == [p1] && Split(p2, '/') == [p2];
      assert s1 + [p1] == s2 + [p2];
      assert p1 == (s1 + [p1])[|s1 + [p1]| - 1];
      assert p2 == (s2 + [p2])[|s2 + [p2]| - 1];
      assert |b1| == |b2|;
      assert b1 == (b1 + "/" + p1)[..|b1|];
      assert b2 == (b2 + "/" + p2)[..|b2|];
    }
  }

  /**
   * Without that restriction the split between bucket path and object id is
   * lost: a bucket path `a/b` with object `c` is signed exactly like bucket
   * `a` with object `b/c`.
   */
  lemma SignTargetPathAmbiguity()
    ensures SignTarget("a/b", "c") == SignTarget("a", "b/c")
  {
    SignTargetDeterminesResource("a/b", "c", "a", "b/c");
  }
}
