/**
 * The path configuration extractor: the segments between the leading `/`
 * and the trailing `objects/batch`, a greedy scan of leading `key=value`
 * segments into the client options, and the rest joined as the bucket.
 */
module PathConfig {
  import opened Wrappers
  import opened Strings
  import opened Signer
  import opened Router

  /** `decodeURIComponent`: the decoded string, or `None` where it throws a `URIError`. */
  type Decoder = string -> Option<string>

  /** `pathname.split("/").slice(1, -2)`: drops the first piece and the last two. */
  function Segments(pathname: string): (r: seq<string>)
    ensures var parts := Split(pathname, '/');
      |r| == (if |parts| >= 3 then |parts| - 3 else 0) && forall i :: 0 <= i < |r| ==> r[i] == parts[i + 1]
    ensures forall i :: 0 <= i < |r| ==> '/' !in r[i]
  {
    var parts := Split(pathname, '/');
    if |parts| >= 3 then parts[1..|parts| - 2] else []
  }

  /** For a batch path, the segments are the pieces of the part before `/objects/batch`, without the first one. */
  lemma SegmentsOfBatchPath(prefix: string)
    ensures Segments(prefix + BATCH_SUFFIX) == Split(prefix, '/')[1..]
  {
    assert prefix + BATCH_SUFFIX == prefix + ['/'] + ("objects" + ['/'] + "batch");
    SegmentsDropLastTwo(prefix, "objects", "batch");
  }

  /** The slice drops two trailing separator-free pieces and the first piece. */
  lemma SegmentsDropLastTwo(prefix: string, a: string, b: string)
    requires '/' !in a && '/' !in b
    ensures Segments(prefix + ['/'] + (a + ['/'] + b)) == Split(prefix, '/')[1..]
  {
    SplitAround(prefix, '/', a + ['/'] + b);
    SplitPair(a, '/', b);
  }

  /** `/objects/batch` has no segments. */
  lemma SegmentsOfBareBatchPath()
    ensures Segments(BATCH_SUFFIX) == []
  {
    SegmentsOfBatchPath("");
    assert "" + BATCH_SUFFIX == BATCH_SUFFIX;
    assert Split("", '/') == [""];
  }

  /** For `/{middle}/objects/batch` the segments are the `/`-pieces of `middle`, and they join back to it. */
  lemma SegmentsOfRootedBatchPath(middle: string)
    ensures Segments("/" + middle + BATCH_SUFFIX) == Split(middle, '/')
    ensures Join(Segments("/" + middle + BATCH_SUFFIX), '/') == middle
  {
    SegmentsOfBatchPath("/" + middle);
    assert "/" + middle == "" + ['/'] + middle;
    SplitAround("", '/', middle);
    assert Split("", '/') == [""];
    JoinSplit(middle, '/');
  }

  /** The greedy scan: how many leading segments contain `=`; the first one without `=` stops it. */
  function ConfigPrefixLength(segments: seq<string>): (n: nat)
    ensures n <= |segments|
    ensures forall i :: 0 <= i < n ==> '=' in segments[i]
    ensures n < |segments| ==> '=' !in segments[n]
  {
    if |segments| == 0 || '=' !in segments[0] then 0
    else 1 + ConfigPrefixLength(segments[1..])
  }

  /** A segment cut at its first `=`: the raw key before it and the raw value after it. */
  function KeyValue(segment: string): (string, string)
    requires '=' in segment
  {
    var i := IndexOf(segment, '=').value;
    (segment[..i], segment[i + 1..])
  }

  /** The key is the part before the first `=`, so it holds no `=`; the value is everything after it and may. */
  lemma KeyValueSplitsAtFirstEquals(segment: string)
    requires '=' in segment
    ensures '=' !in KeyValue(segment).0
    ensures KeyValue(segment).0 + "=" + KeyValue(segment).1 == segment
  {
    var i := IndexOf(segment, '=').value;
    assert segment == segment[..i] + "=" + segment[i + 1..];
  }

  /** Both halves of a configuration segment decode without error. */
  predicate Decodes(decode: Decoder, segment: string)
    requires '=' in segment
  {
    decode(KeyValue(segment).0).Some? && decode(KeyValue(segment).1).Some?
  }

  /** The decoded key and value of a configuration segment. */
  function DecodedPair(decode: Decoder, segment: string): (string, string)
    requires '=' in segment && Decodes(decode, segment)
  {
    (decode(KeyValue(segment).0).value, decode(KeyValue(segment).1).value)
  }

  /** Decodes every configuration segment in order; one failure aborts them all. */
  function DecodePairs(decode: Decoder, config: seq<string>): (r: Option<seq<(string, string)>>)
    requires forall i :: 0 <= i < |config| ==> '=' in config[i]
    ensures r.Some? <==> forall i :: 0 <= i < |config| ==> Decodes(decode, config[i])
    ensures r.Some? ==> |r.value| == |config|
    ensures r.Some? ==> forall i :: 0 <= i < |config| ==> r.value[i] == DecodedPair(decode, config[i])
  {
    if |config| == 0 then Some([])
    else if !Decodes(decode, config[0]) then None
    else
      match DecodePairs(decode, config[1..])
      case None =>
        assert !Decodes(decode, config[1..][0]) || exists i :: 0 <= i < |config| - 1 && !Decodes(decode, config[1..][i]);
        None
      case Some(rest) =>
        Some([DecodedPair(decode, config[0])] + rest)
  }

  /** Some pair sets `key`. */
  ghost predicate Mentions(pairs: seq<(string, string)>, key: string)
  {
    exists i :: 0 <= i < |pairs| && pairs[i].0 == key
  }

  /** No later pair sets the key of pair `i`. */
  ghost predicate LastFor(pairs: seq<(string, string)>, i: int)
    requires 0 <= i < |pairs|
  {
    forall j :: i < j < |pairs| ==> pairs[j].0 != pairs[i].0
  }

  /** `options[key] = val` for each pair, left to right. */
  function Override(seed: Options, pairs: seq<(string, string)>): (r: Options)
    decreases |pairs|
    ensures forall k :: k in r <==> k in seed || Mentions(pairs, k)
    ensures forall i :: 0 <= i < |pairs| ==> pairs[i].0 in r
    ensures forall k :: k in seed && !Mentions(pairs, k) ==> r[k] == seed[k]
    ensures forall i :: 0 <= i < |pairs| && LastFor(pairs, i) ==> r[pairs[i].0] == Some(pairs[i].1)
  {
    if |pairs| == 0 then seed
    else
      var first := pairs[0];
      var r := Override(seed[first.0 := Some(first.1)], pairs[1..]);
      assert forall k :: Mentions(pairs, k) <==> k == first.0 || Mentions(pairs[1..], k) by {
        forall k
          ensures Mentions(pairs, k) <==> k == first.0 || Mentions(pairs[1..], k)
        {
          MentionsCons(pairs, k);
        }
      }
      assert forall i :: 0 <= i < |pairs| && LastFor(pairs, i) ==> r[pairs[i].0] == Some(pairs[i].1) by {
        forall i | 0 <= i < |pairs| && LastFor(pairs, i)
          ensures r[pairs[i].0] == Some(pairs[i].1)
        {
          if i == 0 {
            LastForHead(pairs);
          } else {
            LastForTail(pairs, i);
          }
        }
      }
      r
  }

  /** The keys a list of pairs mentions are its first key and the keys its tail mentions. */
  lemma MentionsCons(pairs: seq<(string, string)>, k: string)
    requires |pairs| > 0
    ensures Mentions(pairs, k) <==> k == pairs[0].0 || Mentions(pairs[1..], k)
  {
    if Mentions(pairs, k) && k != pairs[0].0 {
      var i :| 0 <= i < |pairs| && pairs[i].0 == k;
      assert pairs[1..][i - 1] == pairs[i];
    }
    if Mentions(pairs[1..], k) {
      var i :| 0 <= i < |pairs| - 1 && pairs[1..][i].0 == k;
      assert pairs[i + 1] == pairs[1..][i];
    }
  }

  /** A first pair that is the last for its key has a key the tail never mentions. */
  lemma LastForHead(pairs: seq<(string, string)>)
    requires |pairs| > 0 && LastFor(pairs, 0)
    ensures !Mentions(pairs[1..], pairs[0].0)
  {
  }

  /** A later pair that is the last for its key stays the last for it in the tail. */
  lemma LastForTail(pairs: seq<(string, string)>, i: int)
    requires 1 <= i < |pairs| && LastFor(pairs, i)
    ensures LastFor(pairs[1..], i - 1)
  {
    forall j | i - 1 < j < |pairs| - 1
      ensures pairs[1..][j].0 != pairs[1..][i - 1].0
    {
      assert pairs[1..][j] == pairs[j + 1];
    }
  }

  /** A later pair for the same key wins: appending one pair is one more assignment. */
  lemma {:induction false} OverrideSnoc(seed: Options, pairs: seq<(string, string)>, last: (string, string))
    ensures Override(seed, pairs + [last]) == Override(seed, pairs)[last.0 := Some(last.1)]
    decreases |pairs|
  {
    if |pairs| == 0 {
      assert [last][1..] == [];
    } else {
      assert (pairs + [last])[1..] == pairs[1..] + [last];
      OverrideSnoc(seed[pairs[0].0 := Some(pairs[0].1)], pairs[1..], last);
    }
  }

  /**
   * The extractor: client options seeded from the environment and
   * overridden by the decoded configuration segments, and the bucket formed
   * by the remaining segments joined with `/`; `None` when a configuration
   * segment fails to decode.
   */
  function ExtractConfig(seed: Options, segments: seq<string>, decode: Decoder): (r: Option<(Options, string)>)
    ensures r.None? <==> exists i :: 0 <= i < ConfigPrefixLength(segments) && !Decodes(decode, segments[i])
  {
    var n := ConfigPrefixLength(segments);
    assert forall i :: 0 <= i < n ==> segments[..n][i] == segments[i];
    match DecodePairs(decode, segments[..n])
    case None => None
    case Some(pairs) => Some((Override(seed, pairs), Join(segments[n..], '/')))
  }

  /** A successful extraction overrides the seed with one decoded pair per configuration segment, in order. */
  lemma ExtractedPairs(seed: Options, segments: seq<string>, decode: Decoder) returns (pairs: seq<(string, string)>)
    requires ExtractConfig(seed, segments, decode).Some?
    ensures |pairs| == ConfigPrefixLength(segments)
    ensures forall j :: 0 <= j < |pairs| ==> Decodes(decode, segments[j]) && pairs[j] == DecodedPair(decode, segments[j])
    ensures ExtractConfig(seed, segments, decode).value.0 == Override(seed, pairs)
  {
    var n := ConfigPrefixLength(segments);
    var config := segments[..n];
    assert forall j :: 0 <= j < n ==> config[j] == segments[j];
    pairs := DecodePairs(decode, config).value;
  }

  /** A configuration segment whose key no later configuration segment repeats sets that key to its value. */
  lemma ExtractLastWins(seed: Options, segments: seq<string>, decode: Decoder, i: nat)
    requires ExtractConfig(seed, segments, decode).Some?
    requires i < ConfigPrefixLength(segments)
    requires forall j :: i < j < ConfigPrefixLength(segments) && Decodes(decode, segments[j]) ==>
      DecodedPair(decode, segments[j]).0 != DecodedPair(decode, segments[i]).0
    ensures var options := ExtractConfig(seed, segments, decode).value.0;
      var (key, val) := DecodedPair(decode, segments[i]);
      key in options && options[key] == Some(val)
  {
    var pairs := ExtractedPairs(seed, segments, decode);
    assert LastFor(pairs, i) by {
      forall j | i < j < |pairs|
        ensures pairs[j].0 != pairs[i].0
      {
        assert pairs[j] == DecodedPair(decode, segments[j]);
      }
    }
  }

  /** A seed key that no configuration segment names keeps its environment value. */
  lemma ExtractKeepsSeed(seed: Options, segments: seq<string>, decode: Decoder, key: string)
    requires ExtractConfig(seed, segments, decode).Some?
    requires key in seed
    requires forall j :: 0 <= j < ConfigPrefixLength(segments) && Decodes(decode, segments[j]) ==>
      DecodedPair(decode, segments[j]).0 != key
    ensures var options := ExtractConfig(seed, segments, decode).value.0;
      key in options && options[key] == seed[key]
  {
    var pairs := ExtractedPairs(seed, segments, decode);
    assert !Mentions(pairs, key) by {
      forall j | 0 <= j < |pairs|
        ensures pairs[j].0 != key
      {
        assert pairs[j] == DecodedPair(decode, segments[j]);
      }
    }
  }

  /** The only keys besides the seed's are those of configuration segments. */
  lemma ExtractAddsOnlyConfigKeys(seed: Options, segments: seq<string>, decode: Decoder, key: string)
    requires ExtractConfig(seed, segments, decode).Some?
    requires key in ExtractConfig(seed, segments, decode).value.0 && key !in seed
    ensures exists i :: 0 <= i < ConfigPrefixLength(segments) && DecodedPair(decode, segments[i]).0 == key
  {
    var pairs := ExtractedPairs(seed, segments, decode);
    var i :| 0 <= i < |pairs| && pairs[i].0 == key;
    assert pairs[i] == DecodedPair(decode, segments[i]);
  }

  /**
   * Greedy prefix: configuration and bucket segments partition the segments
   * in order, and a segment after the first `=`-free one is bucket even if
   * it contains `=`.
   */
  lemma ExtractIsGreedy(seed: Options, segments: seq<string>, decode: Decoder, i: nat)
    requires i < |segments| && '=' !in segments[i]
    requires ExtractConfig(seed, segments, decode).Some?
    ensures ConfigPrefixLength(segments) <= i
    ensures ExtractConfig(seed, segments, decode).value.1 == Join(segments[ConfigPrefixLength(segments)..], '/')
  {
  }

  /** When segments came from `split("/")`, the bucket splits back into exactly the non-configuration segments. */
  lemma ExtractBucketSegments(seed: Options, segments: seq<string>, decode: Decoder)
    requires forall k :: 0 <= k < |segments| ==> '/' !in segments[k]
    requires ConfigPrefixLength(segments) < |segments|
    requires ExtractConfig(seed, segments, decode).Some?
    ensures Split(ExtractConfig(seed, segments, decode).value.1, '/') == segments[ConfigPrefixLength(segments)..]
  {
    SplitJoin(segments[ConfigPrefixLength(segments)..], '/');
  }

  /** With no configuration segment, the options are the seed and the bucket is all segments joined. */
  lemma ExtractWithoutConfig(seed: Options, segments: seq<string>, decode: Decoder)
    requires |segments| == 0 || '=' !in segments[0]
    ensures ExtractConfig(seed, segments, decode) == Some((seed, Join(segments, '/')))
  {
    assert segments[0..] == segments;
  }

  /** The first `count` segments are configuration, all decode, and `pairs` holds their decoded keys and values. */
  ghost predicate Consumed(decode: Decoder, segments: seq<string>, count: nat, pairs: seq<(string, string)>)
  {
    && count <= ConfigPrefixLength(segments)
    && |pairs| == count
    && forall j :: 0 <= j < count ==> Decodes(decode, segments[j]) && pairs[j] == DecodedPair(decode, segments[j])
  }

  /** One more configuration segment that decodes extends the consumed prefix by its pair. */
  lemma ConsumeNext(decode: Decoder, segments: seq<string>, count: nat, pairs: seq<(string, string)>)
    requires Consumed(decode, segments, count, pairs)
    requires count < ConfigPrefixLength(segments) && Decodes(decode, segments[count])
    ensures Consumed(decode, segments, count + 1, pairs + [DecodedPair(decode, segments[count])])
  {
    var pair := DecodedPair(decode, segments[count]);
    var next := pairs + [pair];
    assert forall j :: 0 <= j < count ==> next[j] == pairs[j];
    assert next[count] == pair;
  }

  /**
   * Once the whole configuration prefix is consumed, its pairs are what the
   * extractor decodes, so the extractor yields the seed overridden by them.
   */
  lemma ConsumedAll(seed: Options, decode: Decoder, segments: seq<string>, pairs: seq<(string, string)>)
    requires Consumed(decode, segments, ConfigPrefixLength(segments), pairs)
    ensures DecodePairs(decode, segments[..ConfigPrefixLength(segments)]) == Some(pairs)
    ensures ExtractConfig(seed, segments, decode)
         == Some((Override(seed, pairs), Join(segments[ConfigPrefixLength(segments)..], '/')))
  {
    var n := ConfigPrefixLength(segments);
    var config := segments[..n];
    assert forall j :: 0 <= j < n ==> config[j] == segments[j];
    var d := DecodePairs(decode, config);
    assert d.Some?;
    var r := d.value;
    assert forall j :: 0 <= j < n ==> r[j] == pairs[j];
    assert r == pairs;
  }

  /** The options the loop has built after assigning `pairs` in order, one map update per pair. */
  ghost function Assigned(seed: Options, pairs: seq<(string, string)>): Options
    decreases |pairs|
  {
    if |pairs| == 0 then seed
    else
      var last := pairs[|pairs| - 1];
      Assigned(seed, pairs[..|pairs| - 1])[last.0 := Some(last.1)]
  }

  /** Assigning pairs one update at a time gives the same options as `Override`. */
  lemma {:induction false} AssignedIsOverride(seed: Options, pairs: seq<(string, string)>)
    ensures Assigned(seed, pairs) == Override(seed, pairs)
    decreases |pairs|
  {
    if |pairs| > 0 {
      var init, last := pairs[..|pairs| - 1], pairs[|pairs| - 1];
      assert init + [last] == pairs;
      AssignedIsOverride(seed, init);
      OverrideSnoc(seed, init, last);
      calc {
        Assigned(seed, pairs);
        Assigned(seed, init)[last.0 := Some(last.1)];
        Override(seed, init)[last.0 := Some(last.1)];
        Override(seed, init + [last]);
      }
    }
  }

  /**
   * One turn of the scan on a segment holding `=`: it lies inside the
   * configuration prefix; a decode failure makes the extractor fail; a
   * decoded pair extends the consumed prefix and is one more map update.
   */
  lemma ScanStep(seed: Options, decode: Decoder, segments: seq<string>, count: nat, pairs: seq<(string, string)>)
    requires Consumed(decode, segments, count, pairs)
    requires count < |segments| && '=' in segments[count]
    ensures count < ConfigPrefixLength(segments)
    ensures !Decodes(decode, segments[count]) ==> ExtractConfig(seed, segments, decode).None?
    ensures Decodes(decode, segments[count]) ==>
      var pair := DecodedPair(decode, segments[count]);
      && Consumed(decode, segments, count + 1, pairs + [pair])
      && Assigned(seed, pairs + [pair]) == Assigned(seed, pairs)[pair.0 := Some(pair.1)]
  {
    if Decodes(decode, segments[count]) {
      ConsumeNext(decode, segments, count, pairs);
      assert (pairs + [DecodedPair(decode, segments[count])])[..|pairs|] == pairs;
    }
  }

  /** The scan stops, at the end or at a segment without `=`, exactly at the end of the configuration prefix. */
  lemma ScanStop(decode: Decoder, segments: seq<string>, count: nat, pairs: seq<(string, string)>)
    requires Consumed(decode, segments, count, pairs)
    requires count == |segments| || (count < |segments| && '=' !in segments[count])
    ensures count == ConfigPrefixLength(segments)
  {
  }

  /** A scan that consumed the whole configuration prefix has built exactly the extractor's options and bucket. */
  lemma ScanFinish(seed: Options, decode: Decoder, segments: seq<string>, pairs: seq<(string, string)>)
    requires Consumed(decode, segments, ConfigPrefixLength(segments), pairs)
    ensures ExtractConfig(seed, segments, decode)
         == Some((Assigned(seed, pairs), Join(segments[ConfigPrefixLength(segments)..], '/')))
  {
    ConsumedAll(seed, decode, segments, pairs);
    AssignedIsOverride(seed, pairs);
  }

  /** The scan as the worker writes it: a loop over the segments that breaks at the first one without `=`. */
  method ParseConfig(seed: Options, segments: seq<string>, decode: Decoder) returns (r: Option<(Options, string)>)
    ensures r.None? <==> exists i :: 0 <= i < ConfigPrefixLength(segments) && !Decodes(decode, segments[i])
    ensures r.Some? ==> r.value.1 == Join(segments[ConfigPrefixLength(segments)..], '/')
    ensures r == ExtractConfig(seed, segments, decode)
  {
    var options := seed;
    var bucketIdx := 0;
    ghost var pairs: seq<(string, string)> := [];
    while bucketIdx < |segments|
      invariant Consumed(decode, segments, bucketIdx, pairs)
      invariant options == Assigned(seed, pairs)
    {
      var segment := segments[bucketIdx];
      var sliceIdx := IndexOf(segment, '=');
      if sliceIdx.None? {
        break;
      }
      var i := sliceIdx.value;
      ScanStep(seed, decode, segments, bucketIdx, pairs);
      var key := decode(segment[..i]);
      var val := decode(segment[i + 1..]);
      if key.None? || val.None? {
        return None;
      }
      pairs := pairs + [(key.value, val.value)];
      options := options[key.value := Some(val.value)];
      bucketIdx := bucketIdx + 1;
    }
    ScanStop(decode, segments, bucketIdx, pairs);
    ScanFinish(seed, decode, segments, pairs);
    r := Some((options, Join(segments[bucketIdx..], '/')));
  }
}
