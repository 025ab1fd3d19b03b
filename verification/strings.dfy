/**
 * The JavaScript string operations the worker relies on, over `seq<char>`:
 * `indexOf` of one character, `split` and `Array.prototype.join` with a
 * one-character separator, and `endsWith`.
 */
module Strings {
  import opened Wrappers

  /** `s.indexOf(c)`: the position of the first `c` in `s`; `None` plays the role of -1. */
  function IndexOf(s: string, c: char): (r: Option<nat>)
    ensures r.None? <==> c !in s
    ensures r.Some? ==> r.value < |s| && s[r.value] == c
    ensures r.Some? ==> forall k :: 0 <= k < r.value ==> s[k] != c
  {
    if |s| == 0 then None
    else if s[0] == c then Some(0)
    else
      match IndexOf(s[1..], c)
      case None => None
      case Some(i) => Some(i + 1)
  }

  /** The first occurrence is unique: any position holding `c` with no `c` before it is the one `IndexOf` finds. */
  lemma IndexOfAt(pre: string, c: char, post: string)
    requires c !in pre
    ensures IndexOf(pre + [c] + post, c) == Some(|pre|)
  {
    var s := pre + [c] + post;
    assert s[|pre|] == c;
    assert forall k :: 0 <= k < |pre| ==> s[k] == pre[k];
  }

  /** `s.split(sep)`: the maximal `sep`-free pieces of `s`, left to right; never empty (`"".split("/")` is `[""]`). */
  function Split(s: string, sep: char): (r: seq<string>)
    ensures |r| >= 1
    ensures forall k :: 0 <= k < |r| ==> sep !in r[k]
    decreases |s|
  {
    match IndexOf(s, sep)
    case None => [s]
    case Some(i) => [s[..i]] + Split(s[i + 1..], sep)
  }

  /** A string without the separator splits into itself alone. */
  lemma SplitWithout(s: string, sep: char)
    requires sep !in s
    ensures Split(s, sep) == [s]
  {
  }

  /** `parts.join(sep)`: the parts with `sep` between neighbours; `[].join(sep)` is `""`. */
  function Join(parts: seq<string>, sep: char): (r: string)
    ensures |parts| == 0 ==> r == ""
    ensures |parts| > 0 ==> parts[0] <= r && EndsWith(r, parts[|parts| - 1])
    ensures |parts| > 1 ==> |parts[0]| < |r| && r[|parts[0]|] == sep
  {
    if |parts| == 0 then ""
    else if |parts| == 1 then parts[0]
    else parts[0] + [sep] + Join(parts[1..], sep)
  }

  /** A list of pieces `Split` could have produced: non-empty and free of the separator. */
  ghost predicate SplitShaped(parts: seq<string>, sep: char)
  {
    |parts| >= 1 && forall k :: 0 <= k < |parts| ==> sep !in parts[k]
  }

  /** Joining what `Split` cut apart gives back the original string. */
  lemma {:induction false} JoinSplit(s: string, sep: char)
    ensures Join(Split(s, sep), sep) == s
    decreases |s|
  {
    if sep in s {
      var i := IndexOf(s, sep).value;
      var pre, post := s[..i], s[i + 1..];
      assert s == pre + [sep] + post;
      SplitAtFirst(pre, sep, post);
      JoinCons(pre, Split(post, sep), sep);
      JoinSplit(post, sep);
    } else {
      assert Split(s, sep) == [s];
    }
  }

  /** Joining a head in front of a non-empty list puts one separator between the head and the rest. */
  lemma JoinCons(head: string, rest: seq<string>, sep: char)
    requires |rest| >= 1
    ensures Join([head] + rest, sep) == head + [sep] + Join(rest, sep)
  {
    assert ([head] + rest)[1..] == rest;
  }

  /** A separator with none before it ends the first piece, and the rest is split on its own. */
  lemma SplitAtFirst(pre: string, sep: char, post: string)
    requires sep !in pre
    ensures Split(pre + [sep] + post, sep) == [pre] + Split(post, sep)
  {
    var s := pre + [sep] + post;
    IndexOfAt(pre, sep, post);
    assert s[..|pre|] == pre;
    assert s[|pre| + 1..] == post;
  }

  /** Two separator-free pieces around one separator split into exactly those two. */
  lemma SplitPair(a: string, sep: char, b: string)
    requires sep !in a && sep !in b
    ensures Split(a + [sep] + b, sep) == [a, b]
  {
    SplitAtFirst(a, sep, b);
  }

  /** Splitting what `Join` glued together gives back the pieces, when none of them holds the separator. */
  lemma {:induction false} SplitJoin(parts: seq<string>, sep: char)
    requires SplitShaped(parts, sep)
    ensures Split(Join(parts, sep), sep) == parts
    decreases |parts|
  {
    if |parts| == 1 {
      assert sep !in parts[0];
    } else {
      var rest := Join(parts[1..], sep);
      assert Join(parts, sep) == parts[0] + [sep] + rest;
      SplitAtFirst(parts[0], sep, rest);
      SplitJoin(parts[1..], sep);
      assert parts == [parts[0]] + parts[1..];
    }
  }

  /** A separator splits the string into the pieces of its left side followed by those of its right side. */
  lemma {:induction false} SplitAround(a: string, sep: char, b: string)
    ensures Split(a + [sep] + b, sep) == Split(a, sep) + Split(b, sep)
    decreases |a|
  {
    if sep !in a {
      SplitAtFirst(a, sep, b);
    } else {
      var i := IndexOf(a, sep).value;
      var head, rest := a[..i], a[i + 1..];
      assert a == head + [sep] + rest;
      assert a + [sep] + b == head + [sep] + (rest + [sep] + b);
      calc {
        Split(a + [sep] + b, sep);
        { SplitAtFirst(head, sep, rest + [sep] + b); }
        [head] + Split(rest + [sep] + b, sep);
        { SplitAround(rest, sep, b); }
        [head] + (Split(rest, sep) + Split(b, sep));
        ([head] + Split(rest, sep)) + Split(b, sep);
        { SplitAtFirst(head, sep, rest); }
        Split(a, sep) + Split(b, sep);
      }
    }
  }

  /** `s.endsWith(suffix)`. */
  predicate EndsWith(s: string, suffix: string)
  {
    |suffix| <= |s| && s[|s| - |suffix|..] == suffix
  }

  /** A string ends with `suffix` exactly when it is something followed by `suffix`. */
  lemma EndsWithIff(s: string, suffix: string)
    ensures EndsWith(s, suffix) <==> exists pre :: s == pre + suffix
  {
    if EndsWith(s, suffix) {
      assert s == s[..|s| - |suffix|] + suffix;
    }
  }
}
