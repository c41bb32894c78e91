/**
 The string primitives the build script relies on: the anchored regular
 expressions `/\.js$/` and `/\.hbs$/`, `split("/")` and `join(...)`.
 Strings are sequences of characters; JavaScript's `$` (without the
 multiline flag) matches only at the very end of the input, so an anchored
 suffix test is `EndsWith`.
 */
module Strings {

  predicate EndsWith(s: string, suffix: string) {
    |suffix| <= |s| && s[|s| - |suffix|..] == suffix
  }

  predicate StartsWith(s: string, prefix: string) {
    |prefix| <= |s| && s[..|prefix|] == prefix
  }

  /** A common prefix cancels. */
  lemma PrefixCancel(pre: string, a: string, b: string)
    requires pre + a == pre + b
    ensures a == b
  {
    assert a == (pre + a)[|pre|..];
    assert b == (pre + b)[|pre|..];
  }

  /** A common suffix cancels. */
  lemma SuffixCancel(a: string, b: string, suffix: string)
    requires a + suffix == b + suffix
    ensures a == b
  {
    assert a == (a + suffix)[..|a|];
    assert b == (b + suffix)[..|b|];
  }

  /** `s.replace(/\.js$/, "")`: removes one trailing ".js", if present. */
  function StripJs(s: string): (r: string)
    ensures |r| <= |s|
    ensures EndsWith(s, ".js") ==> r + ".js" == s
    ensures !EndsWith(s, ".js") ==> r == s
  {
    if EndsWith(s, ".js") then s[..|s| - 3] else s
  }

  /** Stripping undoes appending ".js": the round trip the registry relies on. */
  lemma StripJsAppendJs(t: string)
    ensures StripJs(t + ".js") == t
  {
    assert EndsWith(t + ".js", ".js");
    assert (t + ".js")[..|t|] == t;
  }

  /** Only ONE ".js" is removed: `a.js.js` becomes `a.js`. */
  lemma StripJsRemovesOnlyOne(t: string)
    ensures StripJs(t + ".js.js") == t + ".js"
  {
    assert t + ".js.js" == (t + ".js") + ".js";
    StripJsAppendJs(t + ".js");
  }

  /** `s.replace(/\.hbs$/, ".js")`: swaps a trailing ".hbs" for ".js". */
  function HbsToJs(s: string): (r: string)
    ensures EndsWith(s, ".hbs") ==> EndsWith(r, ".js") && r[..|r| - 3] + ".hbs" == s
    ensures !EndsWith(s, ".hbs") ==> r == s
  {
    if EndsWith(s, ".hbs") then s[..|s| - 4] + ".js" else s
  }

  /** Two ".hbs" names with the same ".js" name are the same name. */
  lemma HbsToJsInjective(a: string, b: string)
    requires EndsWith(a, ".hbs") && EndsWith(b, ".hbs")
    requires HbsToJs(a) == HbsToJs(b)
    ensures a == b
  {
    SuffixCancel(a[..|a| - 4], b[..|b| - 4], ".js");
    assert a == a[..|a| - 4] + ".hbs";
    assert b == b[..|b| - 4] + ".hbs";
  }

  /** `ss.join(sep)`; the empty list joins to "". */
  function JoinWith(ss: seq<string>, sep: string): string
    decreases |ss|
  {
    if |ss| == 0 then ""
    else if |ss| == 1 then ss[0]
    else ss[0] + sep + JoinWith(ss[1..], sep)
  }

  /** `s.split("/")`: the segments between slashes; never empty. */
  function Split(s: string): (parts: seq<string>)
    ensures |parts| >= 1
    decreases |s|
  {
    if |s| == 0 then [""]
    else if s[0] == '/' then [""] + Split(s[1..])
    else
      var rest := Split(s[1..]);
      [[s[0]] + rest[0]] + rest[1..]
  }

  /** `parts.join("/")`. */
  function Join(parts: seq<string>): string {
    JoinWith(parts, "/")
  }

  /** No segment contains a slash. */
  lemma {:induction false} SplitSegmentsHaveNoSlash(s: string)
    ensures forall i :: 0 <= i < |Split(s)| ==> '/' !in Split(s)[i]
    decreases |s|
  {
    if |s| > 0 {
      SplitSegmentsHaveNoSlash(s[1..]);
      if s[0] != '/' {
        var rest := Split(s[1..]);
        assert '/' !in [s[0]] + rest[0];
      }
    }
  }

  /** Joining the segments of a path gives the path back. */
  lemma {:induction false} JoinSplit(s: string)
    ensures Join(Split(s)) == s
    decreases |s|
  {
    if |s| == 0 {
    } else if s[0] == '/' {
      JoinSplit(s[1..]);
      assert s == "/" + s[1..];
    } else {
      JoinSplit(s[1..]);
      JoinConsHead(s[0], Split(s[1..]));
      assert s == [s[0]] + s[1..];
    }
  }

  /** Putting a character in front of the first segment puts it in front of the joined path. */
  lemma JoinConsHead(c: char, parts: seq<string>)
    requires |parts| >= 1
    ensures Join([[c] + parts[0]] + parts[1..]) == [c] + Join(parts)
  {
    var front := [[c] + parts[0]] + parts[1..];
    if |parts| > 1 {
      assert front[1..] == parts[1..];
      assert ([c] + parts[0]) + "/" + Join(parts[1..]) == [c] + (parts[0] + "/" + Join(parts[1..]));
    }
  }

  /** A slash-free prefix followed by a slash splits off as one segment. */
  lemma {:induction false} SplitSegmentSlash(a: string, t: string)
    requires '/' !in a
    ensures Split(a + "/" + t) == [a] + Split(t)
    decreases |a|
  {
    if |a| == 0 {
      assert a + "/" + t == "/" + t;
      assert ("/" + t)[1..] == t;
    } else {
      var s := a + "/" + t;
      assert s[0] == a[0];
      assert s[1..] == a[1..] + "/" + t;
      SplitSegmentSlash(a[1..], t);
      assert [a[0]] + a[1..] == a;
    }
  }

  /** A slash-free string is a single segment. */
  lemma {:induction false} SplitNoSlash(a: string)
    requires '/' !in a
    ensures Split(a) == [a]
    decreases |a|
  {
    if |a| > 0 {
      SplitNoSlash(a[1..]);
      assert [a[0]] + a[1..] == a;
    }
  }

  /** Splitting a join of slash-free segments gives the segments back. */
  lemma {:induction false} SplitJoin(parts: seq<string>)
    requires |parts| >= 1
    requires forall i :: 0 <= i < |parts| ==> '/' !in parts[i]
    ensures Split(Join(parts)) == parts
    decreases |parts|
  {
    if |parts| == 1 {
      SplitNoSlash(parts[0]);
    } else {
      SplitJoin(parts[1..]);
      SplitSegmentSlash(parts[0], Join(parts[1..]));
    }
  }

  /** Appending a segment to a join appends "/" and the segment. */
  lemma {:induction false} JoinSnoc(init: seq<string>, last: string)
    requires |init| >= 1
    ensures Join(init + [last]) == Join(init) + "/" + last
    decreases |init|
  {
    if |init| == 1 {
      assert (init + [last])[1..] == [last];
      assert Join([last]) == last;
    } else {
      JoinSnoc(init[1..], last);
      assert (init + [last])[1..] == init[1..] + [last];
    }
  }
}
