# git-lfs-s3-proxy, modelled in Dafny

The worker is a Git LFS batch endpoint. It answers `POST …/objects/batch` with
pre-signed S3 URLs, one per requested object, so that Git LFS clients can upload
to and download from any S3-compatible bucket directly. Clients put S3 client
options (credentials, session token, region) into the URL path as leading
`key=value` segments. The rest of the path, up to `/objects/batch`, is the host
and optional bucket path that every signed URL targets: the URL for an object is
`https://{rest}/{oid}` (`worker.js:16`). No option names an endpoint.

The model covers the pure request-to-response logic of `worker.js`:

- `Router`: the two endpoints. `GET /` redirects to the homepage; any other
  method on `/` gets 405 with `Allow: GET`. A path not ending in `/objects/batch`
  gets 404. A batch path with a method other than `POST` gets 405 with
  `Allow: POST`.
- `PathConfig`: `pathname.split("/").slice(1, -2)`, then the greedy scan.
  Leading segments that contain `=` are cut at the first `=`. Both halves are
  decoded and written into the options, which start from the environment
  credentials. The first segment without `=` ends the scan, and the remaining
  segments, joined by `/`, form the bucket. `ParseConfig` is the loop as
  written, with `break`. `ExtractConfig` is its functional reference, and the
  method is proved equal to it.
- `Signer`: `METHOD_FOR` and the request target
  `https://{bucket}/{oid}?X-Amz-Expires=3600` handed to the signing client.
- `Batch`: the response body. It is an order-preserving map over the requested
  objects, and every answer carries the batch's single `expires_in`, which
  falls back through `params.expiry || env.EXPIRY || 3600`.
- `Worker`: the `fetch` handler as one function `Fetch`.
- `EndToEnd`: whole requests. It shows that ASCII configuration a client
  percent-encodes into the path arrives in the options exactly.

Supporting modules:

- `Wrappers`: `Option`.
- `Strings`: JavaScript `indexOf`, `split` and `join` on one character, with
  split/join round trips.
- `Percent`: an ASCII instance of `decodeURIComponent` and
  `encodeURIComponent`, with their round trip.

Two parts of the worker are opaque and enter as function-typed parameters:

- The signing client is `SignFn`. It stands for building the `Request` for
  the target with the method and signing it with `aws4fetch`'s
  `AwsClient.sign`, at the moment the request is served. It maps the options,
  the request target and the method to the signed URL.
- `decodeURIComponent` is `Decoder`. It returns `None` where JavaScript throws
  `URIError`. The worker does not catch that exception, so the model answers
  `Aborted`.

The environment is a record of optional bindings: `ACCESS_KEY_ID`,
`SECRET_ACCESS_KEY` and `EXPIRY`. An unset binding is still stored under its
key in the options, as `undefined`; the model writes it as `None`.

Where a natural reading of the worker's intent and its code differ, the model
follows the code:

- An operation other than `upload` or `download` is not rejected. `METHOD_FOR`
  yields `undefined`, and `new Request` treats an undefined method as absent,
  so the object is signed as a `GET`: a download link. The model passes `None`
  to the signer, which builds that `Request`.
- `params` is never filled (`worker.js:55`), so `expires_in` is `env.EXPIRY`
  when that is truthy, and otherwise 3600. `EXPIRY` may be a string binding,
  which is why the expiry is a `JsValue`, either a number or a text.
- A segment holding `=` after the first segment without `=` is not
  configuration. It becomes part of the bucket.
- The sign target always asks for 3600 seconds. It ignores `env.EXPIRY`, even
  when the response advertises a different `expires_in`.

## Model

| member | source | states |
|---|---|---|
| Strings.IndexOf | worker.js:58 | `indexOf` finds the first occurrence: absent exactly when the character does not occur; otherwise an in-range index of the character with no earlier occurrence |
| Strings.Split | worker.js:54 | `split` on one character never yields an empty list, and no piece holds the separator |
| Strings.Join | worker.js:70 | `join` of no pieces is empty; otherwise the result starts with the first piece and ends with the last, and with two or more pieces the separator follows the first piece |
| Strings.JoinCons | worker.js:70 | joining a head before a non-empty list is the head, one separator and the join of the rest |
| Strings.SplitWithout | worker.js:54 | a string without the separator splits into itself alone |
| Strings.JoinSplit | worker.js:54-70 | joining the pieces of a split with the same separator gives back the original string |
| Strings.SplitJoin | worker.js:54-70 | splitting a join of separator-free pieces gives back exactly those pieces, in order |
| Strings.SplitAround | worker.js:54 | splitting around one separator splits each side independently and concatenates the pieces |
| Strings.EndsWithIff | worker.js:37 | `endsWith(suffix)` holds exactly when the string is some prefix followed by the suffix |
| Router.RouteRequest | worker.js:29-43 | `GET /` is redirected with 302 to the homepage; other methods on `/` get 405 with `Allow: GET`; a path other than `/` that does not end in `/objects/batch` gets 404 for every method; a batch path with a non-`POST` method gets 405 with `Allow: POST`; dispatch to the batch handler happens exactly for `POST` on a batch path |
| Router.AllowNamesServedMethod | worker.js:29-43 | the method a 405 names in `Allow` differs from the request's, and the same path with that method would have been served |
| Router.NotFoundForEveryMethod | worker.js:37-39 | a 404 depends only on the path |
| Router.PostToBatchPathDispatches | worker.js:37-43 | any prefix followed by `/objects/batch` reaches the batch handler on `POST` |
| PathConfig.Segments | worker.js:54 | the segments are the `/`-pieces of the path without the first and the last two, and none holds `/` |
| PathConfig.SegmentsOfBatchPath | worker.js:54 | for a batch path the segments are the `/`-pieces before `/objects/batch` without the first one |
| PathConfig.SegmentsOfBareBatchPath | worker.js:54 | `/objects/batch` has no segments, so its bucket is empty |
| PathConfig.SegmentsOfRootedBatchPath | worker.js:54-70 | for `/{middle}/objects/batch` the segments are the pieces of `middle`, and they join back to `middle` |
| PathConfig.ConfigPrefixLength | worker.js:56-61 | the scan stops at the first segment without `=`: every segment before the stop holds `=`, and the segment at the stop does not |
| PathConfig.KeyValueSplitsAtFirstEquals | worker.js:58-63 | a segment is cut at its first `=`: the key holds no `=`, the value may, and key, `=`, value rebuild the segment |
| PathConfig.DecodePairs | worker.js:57-67 | all configuration segments decode exactly when no decode fails; the decoded pairs are the segments' pairs, in order |
| PathConfig.Override | worker.js:46-64 | the assignments keep every seed key and add exactly the mentioned keys; unmentioned keys keep their seed values; a key's last assignment wins |
| PathConfig.MentionsCons | worker.js:57-64 | a key is assigned by a list of pairs exactly when the first pair or one of the rest assigns it |
| PathConfig.LastForTail | worker.js:57-64 | the last assignment of a key among the later pairs stays the last once the first pair is dropped |
| PathConfig.OverrideSnoc | worker.js:64 | one more assignment is one more map update, so a later pair for the same key overrides earlier ones |
| PathConfig.ExtractConfig | worker.js:56-70 | extraction fails, aborting the request, exactly when some configuration segment fails to decode |
| PathConfig.ExtractedPairs | worker.js:56-64 | a successful extraction overrides the seed with one decoded pair per configuration segment, in order |
| PathConfig.ExtractLastWins | worker.js:58-64 | a configuration key that no later configuration segment repeats ends up set to its decoded value |
| PathConfig.ExtractKeepsSeed | worker.js:46-64 | an environment credential that no configuration segment names keeps its environment value |
| PathConfig.ExtractAddsOnlyConfigKeys | worker.js:46-64 | every option key beyond the credentials is the decoded key of some configuration segment |
| PathConfig.ExtractIsGreedy | worker.js:56-70 | a segment without `=` is never configuration, and the bucket is every segment from the end of the configuration prefix, joined by `/` |
| PathConfig.ExtractBucketSegments | worker.js:70 | the bucket splits back into exactly the non-configuration segments |
| PathConfig.ExtractWithoutConfig | worker.js:56-70 | with no leading `key=value` segment, the options are the seed and the bucket is all segments joined |
| PathConfig.ConsumeNext | worker.js:62-65 | a loop step that decodes one more configuration segment extends the consumed prefix by that segment's pair |
| PathConfig.ConsumedAll | worker.js:57-67 | once the loop reaches the end of the configuration prefix, its pairs are the extractor's decoded pairs, and the extractor yields the seed overridden by them |
| PathConfig.AssignedIsOverride | worker.js:57-66 | assigning the pairs one map update at a time, as the loop does, gives the same options as `Override` |
| PathConfig.ScanStep | worker.js:57-66 | a segment holding `=` met by the loop lies inside the configuration prefix; if it fails to decode the extractor fails too; otherwise it extends the consumed prefix by its pair and the options by one update |
| PathConfig.ScanStop | worker.js:57-61 | the loop stops, at the end or at a segment without `=`, exactly at the end of the configuration prefix |
| PathConfig.ScanFinish | worker.js:57-70 | a loop that consumed the whole configuration prefix holds exactly the extractor's options and bucket |
| PathConfig.ParseConfig | worker.js:54-70 | the loop, with its `break` at the first segment without `=` and its abort on a decode error, aborts exactly when some configuration segment fails to decode, otherwise yields as bucket the segments after the configuration prefix joined by `/`, and computes exactly the extractor's options and bucket |
| Signer.MethodFor | worker.js:8-11 | `upload` maps to `PUT`, `download` maps to `GET`, and exactly every other operation maps to no method |
| Signer.Decimal | worker.js:4-16 | a template literal renders a number as decimal digits with no leading zero |
| Signer.DecimalRoundTrip | worker.js:4-16 | reading the rendered digits back gives the number |
| Signer.ExpiryRendering | worker.js:4-16 | `${EXPIRY}` renders as `3600` |
| Signer.SignTarget | worker.js:16 | the sign target is `https://` + bucket + `/` + oid + `?X-Amz-Expires=3600` |
| Signer.Sign | worker.js:13-21 | the signed URL is what the signing client returns for the options, the target `https://{bucket}/{path}?X-Amz-Expires=3600` and the method |
| Signer.SignSameResource | worker.js:16 | for one signing client at one instant, two objects whose `bucket/oid` strings coincide get the same signed URL |
| Signer.SignTargetDeterminesResource | worker.js:16 | two sign targets are equal exactly when their `bucket/oid` strings are equal |
| Signer.SignTargetSeparatesObjects | worker.js:16 | for object ids without `/`, the sign target determines both the bucket path and the object id |
| Signer.SignTargetPathAmbiguity | worker.js:16 | without that restriction, bucket `a/b` with object `c` and bucket `a` with object `b/c` are signed identically |
| Batch.ExpiresIn | worker.js:71 | the fallback chain always yields a truthy expiry |
| Batch.ExpiresInWithoutParams | worker.js:55-71 | with no request parameters, a truthy `env.EXPIRY` is used as is and anything else falls back to 3600 |
| Batch.Answer | worker.js:79-86 | an answer keeps the object's oid and size, is authenticated, holds exactly one action keyed by the operation, signed for that object's target with the batch method, with the batch's expiry |
| Batch.AnswerAll | worker.js:78-87 | one answer per object, in order, the `i`-th being the answer for the `i`-th object |
| Batch.AnswerAllConcat | worker.js:78-87 | answering is independent per object: answers to a concatenation are the concatenated answers |
| Batch.AnswerAllConcatAt | worker.js:78-87 | the answer at one position of a concatenation is the answer from whichever run holds that object |
| Batch.BuildResponse | worker.js:76-88 | the body declares `basic` transfer and answers as many objects as were requested |
| Worker.Seed | worker.js:46-49 | the initial options hold exactly the two credential keys, bound to the environment's access key id and secret |
| Worker.RoutingPrecedesBody | worker.js:29-43 | a request that is not dispatched gets the same answer whatever the body, environment, signer and decoder |
| Worker.Fetch | worker.js:25-100 | every routing outcome as in `Router`; the request aborts exactly when it is a batch `POST` whose configuration fails to decode; it succeeds exactly when it is a batch `POST` whose configuration decodes; a success answers every requested object with `basic` transfer |
| Worker.FetchAnswersEveryObject | worker.js:54-88 | each answer keeps its object's oid and size, is authenticated, holds one action keyed by the operation, is signed with the extracted options for the extracted bucket and the operation's method, and carries the batch's expiry |
| Worker.FetchSignsWithOperationMethod | worker.js:75-79 | uploads are signed as `PUT`, downloads as `GET`, and any other operation reaches the signer with `method` undefined |
| Worker.FetchUniformExpiry | worker.js:71-84 | every answer's `expires_in` is the environment expiry when truthy, and otherwise 3600 |
| Worker.EraseAnswerIgnoresOptions | worker.js:78-86 | apart from its signed link, an answer does not depend on the client options |
| Worker.EraseIgnoresOptions | worker.js:76-88 | apart from the signed links, the response body does not depend on the client options |
| Worker.SecretOnlyReachesSigner | worker.js:46-79 | the secret key affects the response only through the signed links |
| Percent.Decode | worker.js:62-63 | text without `%` decodes to itself, and decoding never lengthens |
| Percent.Encode | worker.js:62-63 | encoding yields only unreserved characters and `%` |
| Percent.EncodeHasNoDelimiters | worker.js:54-58 | an encoded string holds neither `/` nor `=`, so it fits in one half of one segment |
| Percent.EncodeUnreserved | worker.js:62-63 | text of unreserved characters is its own encoding |
| Percent.DecodeEncodedChar | worker.js:62-63 | decoding reads one encoded character back and carries on with the rest |
| Percent.DecodeEncode | worker.js:62-63 | decoding an encoded ASCII string gives back the original string |
| EndToEnd.ConfigSegmentDecodes | worker.js:58-63 | a `key=value` segment encoded by a client holds no `/`, holds `=`, and decodes back to the pair |
| EndToEnd.ExtractConfigured | worker.js:56-70 | configuration segments that decode to given pairs, followed by a bucket path, extract to the seed overridden by exactly those pairs and to exactly that bucket path |
| EndToEnd.FetchConfigured | worker.js:29-88 | a `POST` of configuration segments followed by a bucket path and `/objects/batch` is answered with the environment credentials overridden by the decoded pairs in order, signed for that bucket path |
| EndToEnd.FetchEncodedConfig | worker.js:29-88 | ASCII configuration pairs a client percent-encodes into the path arrive in the options exactly and in order, whatever `/`, `=` or `%` they hold |
| EndToEnd.OverrideTwo | worker.js:57-64 | two configuration pairs set the first key and then the second |
| EndToEnd.TwoPairPath | worker.js:54-70 | the two-pair path splits into the two configuration segments and the two bucket segments |
| EndToEnd.FetchTwoPairs | worker.js:29-88 | `POST /k1=v1/k2=v2/b1/b2/objects/batch` with plain keys and values is answered with the credentials plus `k1 = v1`, then `k2 = v2`, for bucket `b1/b2` |
| EndToEnd.FetchWithoutConfig | worker.js:29-88 | without configuration segments the options are the environment credentials and the bucket is the whole path before `/objects/batch`, for any decoder |
| EndToEnd.FetchSingleDownload | worker.js:29-88 | a one-object download with no environment expiry is answered with that object, authenticated, linked by the `GET` signature of `https://{bucket}/{oid}?X-Amz-Expires=3600` and valid for 3600 seconds |
| EndToEnd.FetchDownloadExample | worker.js:29-88 | the download of `abc123` (size 10) from `/my-bucket/objects/batch` is signed for `https://my-bucket/abc123?X-Amz-Expires=3600` |

## Left out

- Signer.SignSameResource: `SignFn` stands for the client at the request's signing instant. A SigV4 query signature stamps the signing time (`X-Amz-Date`) from the clock, since `worker.js:17` fixes no date, so the same resource signed at two moments gets two different URLs. The time dependence is not modelled, and the lemma holds only within one signing instant.
- Worker.Fetch: the `AwsClient` constructor (`worker.js:69`) throws when `accessKeyId` or `secretAccessKey` is undefined, and a signing call can fail. Neither exception is represented: `SignFn` is total, and an `Ok` response assumes the client was built and every signing call succeeded.
- SigV4 signing inside `aws4fetch` is out. The `AwsClient` constructor, `s3.sign` and the URL the signed request carries are cryptographic foreign code. They are one opaque function, `SignFn`, of the options, the target and the method.
- Percent.Decode is an ASCII-only instance of `decodeURIComponent`: a `%XX` escape of a byte at or above 0x80 is rejected rather than decoded as UTF-8. The handler and every `PathConfig` lemma take the decoder as a parameter, so they hold for the real one too.
- Percent.Encode covers ASCII input only, because the model has no UTF-8 encoder.
- `Request`, `Response` and `URL` objects, `request.json()` and `JSON.stringify` are out. The handler takes the method, the already-parsed pathname and the parsed body, and returns the body as a datatype. A body that fails to parse, or that lacks `objects`, is a runtime exception the model does not represent.
- Headers other than `Allow` are out, namely `Cache-Control` and `Content-Type` on success. They are constant and carry no logic.
- `console.log` calls (`worker.js:20, 27, 52, 74, 91`) are out. They are debug output only.
- The `Promise.all` concurrency is modelled as a sequential map. Each signing call is independent, and `AnswerAllConcat` states that the answers compose per object.
- Signer.Sign: `SignFn` covers building the `Request` (`worker.js:14-16`) as well as signing it. For `None` the real `Request` defaults its method to `GET`, so the real client signs a `GET` URL; the model leaves that default inside the opaque signer and does not state it.
- JavaScript prototype lookups are out. `METHOD_FOR["constructor"]` returns a function, not `undefined`. `new Request` then gets an invalid method token and throws a `TypeError`, so the real request aborts; the model treats the key as missing and signs with no method. A configuration key `__proto__` creates no own option in JavaScript; `PathConfig.Override` stores it as an ordinary option key.
- Worker.SecretOnlyReachesSigner does not say whether the signed URL reveals the secret. That depends on the opaque signer; SigV4 itself sends only a signature.
- `ctx` and any environment binding the worker does not read are out.
