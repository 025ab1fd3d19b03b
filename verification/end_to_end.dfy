/**
 * Whole requests through the handler with the ASCII percent-decoder:
 * configuration a client percent-encodes into the path arrives in the
 * client options exactly, and the bucket path is passed on unchanged.
 */
module EndToEnd {
  import opened Wrappers
  import opened Strings
  import opened Signer
  import opened Router
  import opened PathConfig
  import opened Batch
  import opened Worker
  import Percent

  /** A configuration pair as a client writes it into the path: both halves percent-encoded around one `=`. */
  function ConfigSegment(kv: (string, string)): string
    requires Percent.IsAscii(kv.0) && Percent.IsAscii(kv.1)
  {
    Percent.Encode(kv.0) + "=" + Percent.Encode(kv.1)
  }

  /** Every key and value is ASCII text, which is what the encoder accepts. */
  ghost predicate AsciiPairs(configs: seq<(string, string)>)
  {
    forall i :: 0 <= i < |configs| ==> Percent.IsAscii(configs[i].0) && Percent.IsAscii(configs[i].1)
  }

  /** The configuration segments for a list of pairs, in order. */
  function ConfigSegments(configs: seq<(string, string)>): (r: seq<string>)
    requires AsciiPairs(configs)
    ensures |r| == |configs|
    ensures forall i :: 0 <= i < |configs| ==> r[i] == ConfigSegment(configs[i])
  {
    seq(|configs|, i requires 0 <= i < |configs| => ConfigSegment(configs[i]))
  }

  /** An encoded segment holds no `/`, holds an `=`, and decodes back to its pair. */
  lemma ConfigSegmentDecodes(kv: (string, string))
    requires Percent.IsAscii(kv.0) && Percent.IsAscii(kv.1)
    ensures '/' !in ConfigSegment(kv)
    ensures '=' in ConfigSegment(kv)
    ensures Decodes(Percent.Decode, ConfigSegment(kv))
    ensures DecodedPair(Percent.Decode, ConfigSegment(kv)) == kv
  {
    var k, v := Percent.Encode(kv.0), Percent.Encode(kv.1);
    var seg := ConfigSegment(kv);
    Percent.EncodeHasNoDelimiters(kv.0);
    Percent.EncodeHasNoDelimiters(kv.1);
    assert seg == k + ['='] + v;
    assert seg[|k|] == '=';
    IndexOfAt(k, '=', v);
    assert seg[..|k|] == k && seg[|k| + 1..] == v;
    assert KeyValue(seg) == (k, v);
    Percent.DecodeEncode(kv.0);
    Percent.DecodeEncode(kv.1);
  }

  /**
   * A path made of configuration segments that decode to `pairs`, followed
   * by a bucket path whose first segment holds no `=`, is answered with the
   * environment credentials overridden by exactly those pairs, in order,
   * and signed for exactly that bucket path.
   */
  lemma FetchConfigured(env: Env, body: BatchRequest, signer: SignFn, decode: Decoder,
                        config: seq<string>, pairs: seq<(string, string)>, bucket: string)
    requires |pairs| == |config|
    requires forall i :: 0 <= i < |config| ==> '/' !in config[i] && '=' in config[i]
    requires forall i :: 0 <= i < |config| ==> Decodes(decode, config[i]) && DecodedPair(decode, config[i]) == pairs[i]
    requires '=' !in Split(bucket, '/')[0]
    ensures Fetch("POST", "/" + Join(config + Split(bucket, '/'), '/') + BATCH_SUFFIX, env, body, signer, decode)
        == Ok(BuildResponse(signer, Override(Seed(env), pairs), bucket, body.operation,
                            MethodFor(body.operation), ExpiresIn(map[], env.expiry), body.objects))
  {
    var path := "/" + Join(config + Split(bucket, '/'), '/') + BATCH_SUFFIX;
    var options := Override(Seed(env), pairs);
    PostToBatchPathDispatches("/" + Join(config + Split(bucket, '/'), '/'));
    RootedSegments(config, bucket);
    ExtractConfigured(Seed(env), decode, config, pairs, bucket);
    assert ExtractConfig(Seed(env), Segments(path), decode) == Some((options, bucket));
  }

  /** Segments with no `/` joined under the root and before the batch suffix come back as the same segments. */
  lemma RootedSegments(config: seq<string>, bucket: string)
    requires forall i :: 0 <= i < |config| ==> '/' !in config[i]
    ensures Segments("/" + Join(config + Split(bucket, '/'), '/') + BATCH_SUFFIX) == config + Split(bucket, '/')
  {
    var segments := config + Split(bucket, '/');
    var n := |config|;
    forall i | 0 <= i < |segments|
      ensures '/' !in segments[i]
    {
      if i >= n {
        assert segments[i] == Split(bucket, '/')[i - n];
      }
    }
    SegmentsOfRootedBatchPath(Join(segments, '/'));
    SplitJoin(segments, '/');
  }

  /** Configuration segments followed by a bucket path extract to the overridden options and exactly that bucket path. */
  lemma ExtractConfigured(seed: Options, decode: Decoder, config: seq<string>, pairs: seq<(string, string)>, bucket: string)
    requires |pairs| == |config|
    requires forall i :: 0 <= i < |config| ==> '=' in config[i]
    requires forall i :: 0 <= i < |config| ==> Decodes(decode, config[i]) && DecodedPair(decode, config[i]) == pairs[i]
    requires '=' !in Split(bucket, '/')[0]
    ensures ExtractConfig(seed, config + Split(bucket, '/'), decode) == Some((Override(seed, pairs), bucket))
  {
    var segments := config + Split(bucket, '/');
    var n := |config|;
    assert ConfigPrefixLength(segments) == n by {
      assert segments[n] == Split(bucket, '/')[0];
    }
    assert segments[..n] == config;
    DecodesTo(decode, config, pairs);
    assert segments[n..] == Split(bucket, '/');
    JoinSplit(bucket, '/');
  }

  /**
   * Configuration round-trips through the path: pairs of ASCII text a
   * client percent-encodes into the path arrive in the client options
   * exactly, in order, whatever `/`, `=` or `%` they contain.
   */
  lemma FetchEncodedConfig(env: Env, body: BatchRequest, signer: SignFn, configs: seq<(string, string)>, bucket: string)
    requires AsciiPairs(configs)
    requires '=' !in Split(bucket, '/')[0]
    ensures var path := "/" + Join(ConfigSegments(configs) + Split(bucket, '/'), '/') + BATCH_SUFFIX;
      Fetch("POST", path, env, body, signer, Percent.Decode)
        == Ok(BuildResponse(signer, Override(Seed(env), configs), bucket, body.operation,
                            MethodFor(body.operation), ExpiresIn(map[], env.expiry), body.objects))
  {
    var config := ConfigSegments(configs);
    forall i | 0 <= i < |config|
      ensures '/' !in config[i] && '=' in config[i]
      ensures Decodes(Percent.Decode, config[i]) && DecodedPair(Percent.Decode, config[i]) == configs[i]
    {
      ConfigSegmentDecodes(configs[i]);
    }
    FetchConfigured(env, body, signer, Percent.Decode, config, configs, bucket);
  }

  /**
   * `POST /k1=v1/k2=v2/b1/b2/objects/batch` with plain keys and values
   * (no `%`, no `/`, no `=` in a key; a value may hold `=`) is answered
   * with the environment credentials plus `k1 = v1` and then `k2 = v2`,
   * for bucket path `b1/b2`.
   */
  lemma FetchTwoPairs(env: Env, body: BatchRequest, signer: SignFn,
                      k1: string, v1: string, k2: string, v2: string, b1: string, b2: string)
    requires '/' !in k1 && '/' !in v1 && '/' !in k2 && '/' !in v2 && '/' !in b1 && '/' !in b2
    requires '%' !in k1 && '%' !in v1 && '%' !in k2 && '%' !in v2
    requires '=' !in k1 && '=' !in k2 && '=' !in b1
    ensures Fetch("POST", "/" + k1 + "=" + v1 + "/" + k2 + "=" + v2 + "/" + b1 + "/" + b2 + BATCH_SUFFIX,
                  env, body, signer, Percent.Decode)
        == Ok(BuildResponse(signer, Seed(env)[k1 := Some(v1)][k2 := Some(v2)], b1 + "/" + b2, body.operation,
                            MethodFor(body.operation), ExpiresIn(map[], env.expiry), body.objects))
  {
    var config := [k1 + "=" + v1, k2 + "=" + v2];
    PlainSegment(k1, v1);
    PlainSegment(k2, v2);
    TwoPairPath(k1, v1, k2, v2, b1, b2);
    OverrideTwo(Seed(env), (k1, v1), (k2, v2));
    FetchConfigured(env, body, signer, Percent.Decode, config, [(k1, v1), (k2, v2)], b1 + "/" + b2);
  }

  /** Overriding with two pairs sets the first key and then the second. */
  lemma OverrideTwo(seed: Options, p1: (string, string), p2: (string, string))
    ensures Override(seed, [p1, p2]) == seed[p1.0 := Some(p1.1)][p2.0 := Some(p2.1)]
  {
    assert [p1, p2][1..] == [p2];
    assert [p2][1..] == [];
  }

  /**
   * The two-pair path splits into the two configuration segments followed
   * by the two bucket segments, and its bucket path starts with `b1`.
   */
  lemma TwoPairPath(k1: string, v1: string, k2: string, v2: string, b1: string, b2: string)
    requires '/' !in b1 && '/' !in b2
    ensures Split(b1 + "/" + b2, '/') == [b1, b2]
    ensures "/" + Join([k1 + "=" + v1, k2 + "=" + v2] + Split(b1 + "/" + b2, '/'), '/') + BATCH_SUFFIX
         == "/" + k1 + "=" + v1 + "/" + k2 + "=" + v2 + "/" + b1 + "/" + b2 + BATCH_SUFFIX
  {
    assert b1 + "/" + b2 == b1 + ['/'] + b2;
    SplitPair(b1, '/', b2);
    assert [k1 + "=" + v1, k2 + "=" + v2] + [b1, b2] == [k1 + "=" + v1, k2 + "=" + v2, b1, b2];
    TwoPairMiddle(k1, v1, k2, v2, b1, b2);
  }

  /** A plain `key=value` segment holds no `/`, cuts at the `=` after the key, and decodes to the key and value as written. */
  lemma PlainSegment(k: string, v: string)
    requires '/' !in k && '/' !in v && '%' !in k && '%' !in v && '=' !in k
    ensures '/' !in k + "=" + v && '=' in k + "=" + v
    ensures Decodes(Percent.Decode, k + "=" + v) && DecodedPair(Percent.Decode, k + "=" + v) == (k, v)
  {
    var seg := k + "=" + v;
    assert seg == k + ['='] + v;
    assert seg[|k|] == '=';
    IndexOfAt(k, '=', v);
    assert seg[..|k|] == k && seg[|k| + 1..] == v;
    assert KeyValue(seg) == (k, v);
  }

  /** Segments that each decode to the matching pair decode, all together, to exactly those pairs. */
  lemma DecodesTo(decode: Decoder, config: seq<string>, pairs: seq<(string, string)>)
    requires |pairs| == |config|
    requires forall i :: 0 <= i < |config| ==> '=' in config[i]
    requires forall i :: 0 <= i < |config| ==> Decodes(decode, config[i]) && DecodedPair(decode, config[i]) == pairs[i]
    ensures DecodePairs(decode, config) == Some(pairs)
  {
    var d := DecodePairs(decode, config);
    assert d.Some?;
    assert |d.value| == |pairs|;
    assert forall i :: 0 <= i < |config| ==> d.value[i] == pairs[i];
    assert d.value == pairs;
  }

  /** The two-pair path, written with its separators spelled out, is the root, the joined segments and the batch suffix. */
  lemma TwoPairMiddle(k1: string, v1: string, k2: string, v2: string, b1: string, b2: string)
    ensures "/" + Join([k1 + "=" + v1, k2 + "=" + v2, b1, b2], '/') + BATCH_SUFFIX
         == "/" + k1 + "=" + v1 + "/" + k2 + "=" + v2 + "/" + b1 + "/" + b2 + BATCH_SUFFIX
  {
    var s1, s2 := k1 + "=" + v1, k2 + "=" + v2;
    JoinFour(s1, s2, b1, b2, '/');
    var head := "/" + k1 + "=" + v1 + "/" + k2 + "=" + v2;
    assert "/" + k1 + "=" + v1 == "/" + s1;
    assert head == "/" + s1 + "/" + s2;
    assert "/" + Join([s1, s2, b1, b2], '/') == head + "/" + b1 + "/" + b2;
  }

  /** Joining four pieces puts one separator between each neighbouring pair. */
  lemma JoinFour(a: string, b: string, c: string, d: string, sep: char)
    ensures Join([a, b, c, d], sep) == a + [sep] + b + [sep] + c + [sep] + d
  {
    JoinCons(a, [b, c, d], sep);
    JoinCons(b, [c, d], sep);
    JoinCons(c, [d], sep);
    assert [a] + [b, c, d] == [a, b, c, d];
    assert [b] + [c, d] == [b, c, d];
    assert [c] + [d] == [c, d];
  }

  /**
   * With no configuration segments the options are the environment
   * credentials alone and the bucket is the whole path before
   * `/objects/batch`, for any decoder.
   */
  lemma FetchWithoutConfig(env: Env, body: BatchRequest, signer: SignFn, decode: Decoder, bucket: string)
    requires '=' !in Split(bucket, '/')[0]
    ensures Fetch("POST", "/" + bucket + BATCH_SUFFIX, env, body, signer, decode)
        == Ok(BuildResponse(signer, Seed(env), bucket, body.operation,
                            MethodFor(body.operation), ExpiresIn(map[], env.expiry), body.objects))
  {
    PostToBatchPathDispatches("/" + bucket);
    SegmentsOfRootedBatchPath(bucket);
    ExtractWithoutConfig(Seed(env), Split(bucket, '/'), decode);
    JoinSplit(bucket, '/');
  }

  /**
   * A download of one object from a bucket path with no configuration and
   * no expiry in the environment is answered with that one object,
   * authenticated, whose download link signs
   * `GET https://{bucket}/{oid}?X-Amz-Expires=3600` with the environment
   * credentials and is valid for 3600 seconds.
   */
  lemma FetchSingleDownload(env: Env, signer: SignFn, decode: Decoder, bucket: string, oid: string, size: int)
    requires env.expiry.None?
    requires '=' !in Split(bucket, '/')[0]
    ensures var body := BatchRequest("download", [ObjectRef(oid, size)]);
      var href := signer(Seed(env), "https://" + bucket + "/" + oid + "?X-Amz-Expires=" + "3600", Some(GET));
      Fetch("POST", "/" + bucket + BATCH_SUFFIX, env, body, signer, decode)
        == Ok(BatchResponse("basic", [ResponseObject(oid, size, true, map["download" := Action(href, Num(3600))])]))
  {
    var body := BatchRequest("download", [ObjectRef(oid, size)]);
    FetchWithoutConfig(env, body, signer, decode, bucket);
    var r := BuildResponse(signer, Seed(env), bucket, "download", Some(GET), Num(3600), body.objects);
    assert |r.objects| == 1;
    assert r.objects[0].actions.Keys == {"download"};
  }

  /** The download example: one object `abc123` of size 10 from `/my-bucket/objects/batch`. */
  lemma FetchDownloadExample(env: Env, signer: SignFn, decode: Decoder)
    requires env.expiry.None?
    ensures var body := BatchRequest("download", [ObjectRef("abc123", 10)]);
      var href := signer(Seed(env), "https://my-bucket/abc123" + "?X-Amz-Expires=" + "3600", Some(GET));
      Fetch("POST", "/my-bucket" + BATCH_SUFFIX, env, body, signer, decode)
        == Ok(BatchResponse("basic", [ResponseObject("abc123", 10, true, map["download" := Action(href, Num(3600))])]))
  {
    var bucket := "my-bucket";
    assert '/' !in bucket && '=' !in bucket;
    SplitWithout(bucket, '/');
    ExampleTexts();
    FetchSingleDownload(env, signer, decode, bucket, "abc123", 10);
  }

  /** The example's path prefix and resource, spelled out; kept apart so the example's own proof stays small. */
  lemma ExampleTexts()
    ensures "/" + "my-bucket" == "/my-bucket"
    ensures "https://" + "my-bucket" + "/" + "abc123" == "https://my-bucket/abc123"
  {
  }
}
