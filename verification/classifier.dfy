/**
 The `after` callback of the pass-1 md5 task (gruntfile.js:250-282): each
 rename record is classified by the extension of its new path. Scripts pass
 through; Handlebars templates keep their directory but are renamed to
 `hbs-<name>.js`, the file their precompiled form will occupy.
 */
module Classifier {
  import opened Results
  import opened Strings
  import opened OrderedMaps

  /** One `fileChanges` entry reported by the md5 task. */
  datatype RenameRecord = RenameRecord(oldPath: string, newPath: string)

  datatype AssetKind = Script | Template | Other

  /** The extension test of gruntfile.js:258 and :260, in that order. */
  function KindOf(newPath: string): AssetKind {
    if EndsWith(newPath, ".js") then Script
    else if EndsWith(newPath, ".hbs") then Template
    else Other
  }

  function LastSegment(p: string): string {
    Split(p)[|Split(p)| - 1]
  }

  /** `split("/")`, prefix the last segment with "hbs-" and swap ".hbs" for ".js", `join("/")`. */
  function TemplateScriptPath(p: string): string {
    var parts := Split(p);
    Join(parts[..|parts| - 1] + ["hbs-" + HbsToJs(parts[|parts| - 1])])
  }

  /** The path the registry file map ends up holding for a record. */
  function FinalPath(r: RenameRecord): string {
    if KindOf(r.newPath) == Template then TemplateScriptPath(r.newPath) else r.newPath
  }

  // ---------------------------------------------------------------------------
  // Path lemmas

  lemma EndsWithAppend(a: string, b: string, suffix: string)
    requires EndsWith(b, suffix)
    ensures EndsWith(a + b, suffix)
  {
    assert (a + b)[|a + b| - |suffix|..] == b[|b| - |suffix|..];
  }

  /** A path is its segments before the last, a slash, and the last segment. */
  lemma SplitLast(p: string)
    ensures |Split(p)| == 1 ==> p == LastSegment(p)
    ensures |Split(p)| > 1 ==> p == Join(Split(p)[..|Split(p)| - 1]) + "/" + LastSegment(p)
  {
    var parts := Split(p);
    JoinSplit(p);
    if |parts| > 1 {
      assert parts == parts[..|parts| - 1] + [parts[|parts| - 1]];
      JoinSnoc(parts[..|parts| - 1], parts[|parts| - 1]);
    }
  }

  /** A suffix of `x + "/" + l` longer than `l` contains that slash. */
  lemma SuffixWithinLastSegment(x: string, l: string, suffix: string)
    requires EndsWith(x + "/" + l, suffix)
    ensures |l| < |suffix| ==> suffix[|suffix| - |l| - 1] == '/'
  {
    var p := x + "/" + l;
    if |l| < |suffix| {
      assert suffix[|suffix| - |l| - 1] == p[|p| - |l| - 1];
    }
  }

  /** A path ending in ".hbs" has a last segment ending in ".hbs" (the suffix has no slash). */
  lemma LastSegmentKeepsHbs(p: string)
    requires EndsWith(p, ".hbs")
    ensures EndsWith(LastSegment(p), ".hbs")
  {
    var last := LastSegment(p);
    SplitSegmentsHaveNoSlash(p);
    SplitLast(p);
    if |Split(p)| > 1 {
      var init := Join(Split(p)[..|Split(p)| - 1]);
      assert p == (init + "/") + last;
      SuffixWithinLastSegment(init, last, ".hbs");
      assert p[|p| - 4..] == last[|last| - 4..];
    }
  }

  /** The last segment after renaming has no slash. */
  lemma RenamedSegmentHasNoSlash(p: string)
    ensures '/' !in "hbs-" + HbsToJs(LastSegment(p))
  {
    var last := LastSegment(p);
    SplitSegmentsHaveNoSlash(p);
    assert '/' !in last;
  }

  /** The renamed segments are what the template's final path splits back into. */
  lemma TemplatePathSplit(p: string)
    ensures Split(TemplateScriptPath(p)) == Split(p)[..|Split(p)| - 1] + ["hbs-" + HbsToJs(LastSegment(p))]
  {
    var parts := Split(p);
    var seg := "hbs-" + HbsToJs(LastSegment(p));
    var renamed := parts[..|parts| - 1] + [seg];
    assert TemplateScriptPath(p) == Join(renamed);
    RenamedSegmentHasNoSlash(p);
    SplitSegmentsHaveNoSlash(p);
    forall j | 0 <= j < |renamed|
      ensures '/' !in renamed[j]
    {
      if j < |parts| - 1 {
        assert renamed[j] == parts[j];
      } else {
        assert renamed[j] == seg;
      }
    }
    SplitJoin(renamed);
  }

  /**
   A template's final path keeps every segment but the last; the last becomes
   "hbs-" followed by the old last segment with ".hbs" replaced by ".js".
   */
  lemma TemplatePathSegments(p: string)
    requires EndsWith(p, ".hbs")
    ensures |Split(TemplateScriptPath(p))| == |Split(p)|
    ensures Split(TemplateScriptPath(p))[..|Split(p)| - 1] == Split(p)[..|Split(p)| - 1]
    ensures EndsWith(LastSegment(p), ".hbs")
    ensures LastSegment(TemplateScriptPath(p)) ==
      "hbs-" + LastSegment(p)[..|LastSegment(p)| - 4] + ".js"
  {
    var parts := Split(p);
    var renamed := Split(TemplateScriptPath(p));
    TemplatePathSplit(p);
    LastSegmentKeepsHbs(p);
    assert renamed[..|parts| - 1] == parts[..|parts| - 1];
    assert LastSegment(TemplateScriptPath(p)) == renamed[|parts| - 1];
  }

  /** The third-to-last character tells ".js" from ".hbs". */
  lemma ExtensionMarker(s: string)
    ensures EndsWith(s, ".js") ==> s[|s| - 3] == '.'
    ensures EndsWith(s, ".hbs") ==> s[|s| - 3] == 'h'
  {
    if EndsWith(s, ".js") {
      assert s[|s| - 3] == s[|s| - 3..][0];
    }
    if EndsWith(s, ".hbs") {
      assert s[|s| - 3] == s[|s| - 4..][1];
    }
  }

  /** A template's final path is a ".js" path and never a ".hbs" path. */
  lemma TemplatePathIsScript(p: string)
    requires EndsWith(p, ".hbs")
    ensures EndsWith(TemplateScriptPath(p), ".js")
    ensures !EndsWith(TemplateScriptPath(p), ".hbs")
    ensures KindOf(TemplateScriptPath(p)) == Script
  {
    var f := TemplateScriptPath(p);
    TemplatePathSegments(p);
    var seg := LastSegment(f);
    var lp := LastSegment(p);
    assert seg == ("hbs-" + lp[..|lp| - 4]) + ".js";
    assert EndsWith(seg, ".js");
    SplitLast(f);
    if |Split(f)| > 1 {
      EndsWithAppend(Join(Split(f)[..|Split(f)| - 1]) + "/", seg, ".js");
    }
    ExtensionMarker(f);
  }

  /** Two different templates never get the same final path. */
  lemma TemplatePathInjective(p: string, q: string)
    requires EndsWith(p, ".hbs") && EndsWith(q, ".hbs")
    requires TemplateScriptPath(p) == TemplateScriptPath(q)
    ensures p == q
  {
    var sp, sq := Split(p), Split(q);
    var lp, lq := LastSegment(p), LastSegment(q);
    TemplatePathSplit(p);
    TemplatePathSplit(q);
    var a := sp[..|sp| - 1] + ["hbs-" + HbsToJs(lp)];
    var b := sq[..|sq| - 1] + ["hbs-" + HbsToJs(lq)];
    assert a == b;
    assert |sp| == |sq|;
    assert sp[..|sp| - 1] == a[..|a| - 1] == b[..|b| - 1] == sq[..|sq| - 1];
    assert "hbs-" + HbsToJs(lp) == a[|a| - 1] == b[|b| - 1] == "hbs-" + HbsToJs(lq);
    PrefixCancel("hbs-", HbsToJs(lp), HbsToJs(lq));
    LastSegmentKeepsHbs(p);
    LastSegmentKeepsHbs(q);
    HbsToJsInjective(lp, lq);
    assert sp == sp[..|sp| - 1] + [lp];
    assert sq == sq[..|sq| - 1] + [lq];
    JoinSplit(p);
    JoinSplit(q);
  }

  /**
   The "hbs-" prefix keeps a template apart from every script whose file
   name does not itself start with "hbs-", even one with the same base name.
   */
  lemma TemplatePathAvoidsScripts(p: string, s: string)
    requires EndsWith(p, ".hbs")
    requires !StartsWith(LastSegment(s), "hbs-")
    ensures TemplateScriptPath(p) != s
  {
    TemplatePathSegments(p);
    var seg := LastSegment(TemplateScriptPath(p));
    assert seg[..4] == "hbs-";
  }

  // ---------------------------------------------------------------------------
  // The callback

  /**
   The three objects the callback fills: `fileMap` (old path -> final path,
   for the registry), `newJSFiles` (the uglify map) and `newHBSFiles` (final
   path -> template). Each is written only from its own previous value and
   the current record, so the loop is modelled as three folds in record order.
   */
  datatype Classification = Classification(fileMap: Entries<string>, scripts: Entries<string>, templates: Entries<string>)

  function Classify(recs: seq<RenameRecord>): Classification {
    Classification(FileMapOf(recs), ScriptsOf(recs), TemplatesOf(recs))
  }

  /** `fileMap`: gruntfile.js:256, overwritten at :273 for a template. */
  function FileMapOf(recs: seq<RenameRecord>): (m: Entries<string>)
    decreases |recs|
  {
    if |recs| == 0 then []
    else
      var r := recs[|recs| - 1];
      var fm := Put(FileMapOf(recs[..|recs| - 1]), r.oldPath, r.newPath);
      if KindOf(r.newPath) == Template then Put(fm, r.oldPath, TemplateScriptPath(r.newPath)) else fm
  }

  /** `newJSFiles`: gruntfile.js:259 for a script, :271 for a template. */
  function ScriptsOf(recs: seq<RenameRecord>): (m: Entries<string>)
    decreases |recs|
  {
    if |recs| == 0 then []
    else
      var r := recs[|recs| - 1];
      var prev := ScriptsOf(recs[..|recs| - 1]);
      match KindOf(r.newPath)
      case Script => Put(prev, r.newPath, r.newPath)
      case Template => Put(prev, TemplateScriptPath(r.newPath), TemplateScriptPath(r.newPath))
      case Other => prev
  }

  /** `newHBSFiles`: gruntfile.js:268. */
  function TemplatesOf(recs: seq<RenameRecord>): (m: Entries<string>)
    decreases |recs|
  {
    if |recs| == 0 then []
    else
      var r := recs[|recs| - 1];
      var prev := TemplatesOf(recs[..|recs| - 1]);
      if KindOf(r.newPath) == Template then Put(prev, TemplateScriptPath(r.newPath), r.newPath) else prev
  }

  /** What one record does to the file map: its old path now holds its final path. */
  lemma StepFileMap(recs: seq<RenameRecord>)
    requires |recs| > 0
    ensures forall k :: HasKey(FileMapOf(recs), k) <==>
      HasKey(FileMapOf(recs[..|recs| - 1]), k) || k == recs[|recs| - 1].oldPath
    ensures Lookup(FileMapOf(recs), recs[|recs| - 1].oldPath) == Some(FinalPath(recs[|recs| - 1]))
    ensures forall k :: k != recs[|recs| - 1].oldPath ==>
      Lookup(FileMapOf(recs), k) == Lookup(FileMapOf(recs[..|recs| - 1]), k)
  {
  }

  /** The file map's keys are exactly the records' old paths. */
  lemma {:induction false} ClassifyFileMapKeys(recs: seq<RenameRecord>)
    ensures forall k :: HasKey(FileMapOf(recs), k) <==> exists i :: 0 <= i < |recs| && recs[i].oldPath == k
    decreases |recs|
  {
    if |recs| > 0 {
      var init := recs[..|recs| - 1];
      var last := |recs| - 1;
      ClassifyFileMapKeys(init);
      StepFileMap(recs);
      forall k
        ensures HasKey(FileMapOf(recs), k) <==> exists i :: 0 <= i < |recs| && recs[i].oldPath == k
      {
        if HasKey(FileMapOf(init), k) {
          var i :| 0 <= i < |init| && init[i].oldPath == k;
          assert recs[i] == init[i];
        } else if k != recs[last].oldPath {
          forall i | 0 <= i < |recs|
            ensures recs[i].oldPath != k
          {
            if i < last {
              assert init[i] == recs[i];
            }
          }
        }
      }
    }
  }

  /** The record that came last for an old path decides its value in the file map: its final path. */
  lemma {:induction false} ClassifyFileMap(recs: seq<RenameRecord>, i: nat)
    requires i < |recs|
    requires forall j :: i < j < |recs| ==> recs[j].oldPath != recs[i].oldPath
    ensures Lookup(FileMapOf(recs), recs[i].oldPath) == Some(FinalPath(recs[i]))
    decreases |recs|
  {
    var init := recs[..|recs| - 1];
    var last := |recs| - 1;
    StepFileMap(recs);
    if i < last {
      assert init[i] == recs[i];
      forall j | i < j < |init|
        ensures init[j].oldPath != init[i].oldPath
      {
        assert init[j] == recs[j];
      }
      ClassifyFileMap(init, i);
    }
  }

  /** A script's or template's final path is a ".js" path. */
  lemma FinalPathIsScript(r: RenameRecord)
    requires KindOf(r.newPath) != Other
    ensures EndsWith(FinalPath(r), ".js")
  {
    if KindOf(r.newPath) == Template {
      TemplatePathIsScript(r.newPath);
    }
  }

  /** Whether record `r` puts key `k` into the uglify map. */
  predicate Minified(r: RenameRecord, k: string) {
    KindOf(r.newPath) != Other && FinalPath(r) == k
  }

  /** What one record does to the uglify map: a script or template adds its final path, mapped to itself. */
  lemma StepScripts(recs: seq<RenameRecord>)
    requires |recs| > 0
    ensures var r := recs[|recs| - 1];
      ScriptsOf(recs) == if KindOf(r.newPath) == Other then ScriptsOf(recs[..|recs| - 1])
                         else Put(ScriptsOf(recs[..|recs| - 1]), FinalPath(r), FinalPath(r))
    ensures forall k :: HasKey(ScriptsOf(recs), k) <==>
      HasKey(ScriptsOf(recs[..|recs| - 1]), k) || Minified(recs[|recs| - 1], k)
  {
  }

  /** The uglify map lists exactly the final paths of the script and template records. */
  lemma {:induction false} ClassifyScriptsKeys(recs: seq<RenameRecord>)
    ensures forall k :: HasKey(ScriptsOf(recs), k) <==>
      exists i :: 0 <= i < |recs| && Minified(recs[i], k)
    decreases |recs|
  {
    if |recs| > 0 {
      var init := recs[..|recs| - 1];
      var last := |recs| - 1;
      var r := recs[last];
      ClassifyScriptsKeys(init);
      StepScripts(recs);
      forall k | HasKey(ScriptsOf(init), k)
        ensures exists i :: 0 <= i < |recs| && Minified(recs[i], k)
      {
        var i :| 0 <= i < |init| && Minified(init[i], k);
        assert recs[i] == init[i];
      }
      forall k | Minified(r, k)
        ensures exists i :: 0 <= i < |recs| && Minified(recs[i], k)
      {
        assert Minified(recs[last], k);
      }
      forall k, i | 0 <= i < last && Minified(recs[i], k)
        ensures HasKey(ScriptsOf(init), k)
      {
        assert init[i] == recs[i];
      }
    }
  }

  /** Every entry of the uglify map maps a ".js" path to itself: nothing is minified under a ".hbs" name. */
  lemma {:induction false} ClassifyScriptsValues(recs: seq<RenameRecord>)
    ensures forall k :: HasKey(ScriptsOf(recs), k) ==>
      Lookup(ScriptsOf(recs), k) == Some(k) && EndsWith(k, ".js")
    decreases |recs|
  {
    if |recs| > 0 {
      var r := recs[|recs| - 1];
      ClassifyScriptsValues(recs[..|recs| - 1]);
      StepScripts(recs);
      if KindOf(r.newPath) != Other {
        FinalPathIsScript(r);
      }
    }
  }

  /** What one record does to the template map. */
  lemma StepTemplates(recs: seq<RenameRecord>)
    requires |recs| > 0
    ensures KindOf(recs[|recs| - 1].newPath) == Template ==>
      Lookup(TemplatesOf(recs), TemplateScriptPath(recs[|recs| - 1].newPath)) == Some(recs[|recs| - 1].newPath)
    ensures forall k :: (KindOf(recs[|recs| - 1].newPath) != Template || k != TemplateScriptPath(recs[|recs| - 1].newPath)) ==>
      Lookup(TemplatesOf(recs), k) == Lookup(TemplatesOf(recs[..|recs| - 1]), k)
  {
  }

  /** The template map sends each template's final path back to its ".hbs" path. */
  lemma {:induction false} ClassifyTemplates(recs: seq<RenameRecord>, i: nat)
    requires i < |recs|
    requires KindOf(recs[i].newPath) == Template
    ensures Lookup(TemplatesOf(recs), TemplateScriptPath(recs[i].newPath)) == Some(recs[i].newPath)
    decreases |recs|
  {
    var init := recs[..|recs| - 1];
    var last := |recs| - 1;
    var r := recs[last];
    var key := TemplateScriptPath(recs[i].newPath);
    StepTemplates(recs);
    if i < last {
      assert init[i] == recs[i];
      ClassifyTemplates(init, i);
      if KindOf(r.newPath) == Template && TemplateScriptPath(r.newPath) == key {
        TemplatePathInjective(r.newPath, recs[i].newPath);
      }
    }
  }

  /** The template map holds nothing but final paths of template records. */
  lemma {:induction false} ClassifyTemplatesKeys(recs: seq<RenameRecord>)
    ensures forall k :: HasKey(TemplatesOf(recs), k) ==>
      exists i :: 0 <= i < |recs| && KindOf(recs[i].newPath) == Template && k == TemplateScriptPath(recs[i].newPath)
    decreases |recs|
  {
    if |recs| > 0 {
      var init := recs[..|recs| - 1];
      ClassifyTemplatesKeys(init);
      forall k | HasKey(TemplatesOf(init), k)
        ensures exists i :: 0 <= i < |recs| && KindOf(recs[i].newPath) == Template && k == TemplateScriptPath(recs[i].newPath)
      {
        var i :| 0 <= i < |init| && KindOf(init[i].newPath) == Template && k == TemplateScriptPath(init[i].newPath);
        assert recs[i] == init[i];
      }
    }
  }
}
