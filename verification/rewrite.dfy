/**
 Pass 2, `_recreateRequireConfigFileForBundledFiles` (gruntfile.js:161-189):
 once the copied bundles have been hashed, every component whose pass-1
 file was a bundle's source is re-pointed at that bundle's new address;
 every other component keeps its pass-1 path, and the order is unchanged.
 */
module Rewrite {
  import opened Results
  import opened Strings
  import opened OrderedMaps
  import opened RequireConfig
  import opened Classifier

  /** `hash[filePath + ".js"].replace(...)` on a bundle whose pass-2 address is undefined throws a TypeError. */
  datatype RewriteError = UndefinedBundlePath(component: string)

  /** `oldToNew` (gruntfile.js:164-167): old path -> new path, later records overwriting earlier ones. */
  function OldToNew(recs: seq<RenameRecord>): Entries<string>
    decreases |recs|
  {
    if |recs| == 0 then []
    else Put(OldToNew(recs[..|recs| - 1]), recs[|recs| - 1].oldPath, recs[|recs| - 1].newPath)
  }

  /** `hash` (gruntfile.js:169-174): bundle source -> the pass-2 address of the bundle copied from it. */
  function BundleHash(renamed: Entries<string>, oldToNew: Entries<string>): Entries<Option<string>>
    decreases |renamed|
  {
    if |renamed| == 0 then []
    else
      var e := renamed[|renamed| - 1];
      Put(BundleHash(renamed[..|renamed| - 1], oldToNew), e.1, Lookup(oldToNew, e.0))
  }

  /** The path a component ends up with when its lookup in the hash does not throw. */
  function RewrittenPath(filePath: Option<string>, hash: Entries<Option<string>>): Option<string> {
    var found := Lookup(hash, FileOf(filePath));
    if found.Some? && found.value.Some? then Some(StripJs(found.value.value)) else filePath
  }

  /** The loop of gruntfile.js:177-185 over the pass-1 registry, in registry order. */
  function RewriteEntries(reg: Registry, hash: Entries<Option<string>>): Result<Registry, RewriteError>
    decreases |reg|
  {
    if |reg| == 0 then Ok([])
    else
      match RewriteEntries(reg[..|reg| - 1], hash)
      case Err(e) => Err(e)
      case Ok(prefix) =>
        var (name, filePath) := reg[|reg| - 1];
        if Lookup(hash, FileOf(filePath)) == Some(None) then Err(UndefinedBundlePath(name))
        else Ok(prefix + [(name, RewrittenPath(filePath, hash))])
  }

  /** Every component rewritten in place. */
  function RewrittenAll(reg: Registry, hash: Entries<Option<string>>): (r: Registry)
    ensures |r| == |reg|
  {
    seq(|reg|, i requires 0 <= i < |reg| => (reg[i].0, RewrittenPath(reg[i].1, hash)))
  }

  lemma RewrittenAllSnoc(reg: Registry, hash: Entries<Option<string>>)
    requires |reg| > 0
    ensures RewrittenAll(reg, hash) ==
      RewrittenAll(reg[..|reg| - 1], hash) + [(reg[|reg| - 1].0, RewrittenPath(reg[|reg| - 1].1, hash))]
  {
  }

  /** A successful rewrite rewrites every component in place. */
  lemma {:induction false} RewriteInPlace(reg: Registry, hash: Entries<Option<string>>)
    requires RewriteEntries(reg, hash).Ok?
    ensures RewriteEntries(reg, hash).value == RewrittenAll(reg, hash)
    decreases |reg|
  {
    if |reg| > 0 {
      RewriteInPlace(reg[..|reg| - 1], hash);
      RewrittenAllSnoc(reg, hash);
    }
  }

  /** `_recreateRequireConfigFileForBundledFiles(bundledFileChanges)`: the final registry. */
  function RecreateRequireConfig(changes: seq<RenameRecord>, renamed: Entries<string>, reg: Registry)
    : Result<Registry, RewriteError>
  {
    RewriteEntries(reg, BundleHash(renamed, OldToNew(changes)))
  }

  /** The text handed to the require.config.js template: one line per final entry. */
  function FinalComponentListText(final: Registry): string {
    JoinWith(Serialize(final), ",\n")
  }

  // ---------------------------------------------------------------------------
  // oldToNew and hash

  /** `oldToNew` has the records' old paths as keys, the last record for an old path deciding its value. */
  lemma {:induction false} OldToNewSpec(recs: seq<RenameRecord>, i: nat)
    requires i < |recs|
    requires forall j :: i < j < |recs| ==> recs[j].oldPath != recs[i].oldPath
    ensures Lookup(OldToNew(recs), recs[i].oldPath) == Some(recs[i].newPath)
    decreases |recs|
  {
    var init := recs[..|recs| - 1];
    if i < |recs| - 1 {
      assert init[i] == recs[i];
      forall j | i < j < |init|
        ensures init[j].oldPath != init[i].oldPath
      {
        assert init[j] == recs[j];
      }
      OldToNewSpec(init, i);
    }
  }

  /** An old path is a key of `oldToNew` exactly when some record carries it. */
  lemma {:induction false} OldToNewKeys(recs: seq<RenameRecord>)
    ensures forall k :: HasKey(OldToNew(recs), k) <==> exists i :: 0 <= i < |recs| && recs[i].oldPath == k
    decreases |recs|
  {
    if |recs| > 0 {
      var init := recs[..|recs| - 1];
      var last := |recs| - 1;
      OldToNewKeys(init);
      forall k | HasKey(OldToNew(init), k)
        ensures exists i :: 0 <= i < |recs| && recs[i].oldPath == k
      {
        var i :| 0 <= i < |init| && init[i].oldPath == k;
        assert recs[i] == init[i];
      }
      forall k, i | 0 <= i < last && recs[i].oldPath == k
        ensures HasKey(OldToNew(init), k)
      {
        assert init[i] == recs[i];
      }
    }
  }

  /** The hash has the bundle sources as keys. */
  lemma {:induction false} BundleHashKeys(renamed: Entries<string>, oldToNew: Entries<string>)
    ensures forall src :: HasKey(BundleHash(renamed, oldToNew), src) <==>
      exists j :: 0 <= j < |renamed| && renamed[j].1 == src
    decreases |renamed|
  {
    if |renamed| > 0 {
      var init := renamed[..|renamed| - 1];
      var last := |renamed| - 1;
      BundleHashKeys(init, oldToNew);
      forall src | HasKey(BundleHash(init, oldToNew), src)
        ensures exists j :: 0 <= j < |renamed| && renamed[j].1 == src
      {
        var j :| 0 <= j < |init| && init[j].1 == src;
        assert renamed[j] == init[j];
      }
      forall src, j | 0 <= j < last && renamed[j].1 == src
        ensures HasKey(BundleHash(init, oldToNew), src)
      {
        assert init[j] == renamed[j];
      }
    }
  }

  /**
   A bundle source maps to the pass-2 address (or `undefined`) of the
   bundle copied from it, the last such bundle when several share a source.
   */
  lemma {:induction false} BundleHashSpec(renamed: Entries<string>, oldToNew: Entries<string>, j: nat)
    requires j < |renamed|
    requires forall l :: j < l < |renamed| ==> renamed[l].1 != renamed[j].1
    ensures Lookup(BundleHash(renamed, oldToNew), renamed[j].1) == Some(Lookup(oldToNew, renamed[j].0))
    decreases |renamed|
  {
    var init := renamed[..|renamed| - 1];
    if j < |renamed| - 1 {
      assert init[j] == renamed[j];
      forall l | j < l < |init|
        ensures init[l].1 != init[j].1
      {
        assert init[l] == renamed[l];
      }
      BundleHashSpec(init, oldToNew, j);
    }
  }

  /** When every bundle's copy target was renamed in pass 2, no source maps to `undefined`. */
  lemma {:induction false} BundleHashDefined(renamed: Entries<string>, oldToNew: Entries<string>)
    requires forall j :: 0 <= j < |renamed| ==> HasKey(oldToNew, renamed[j].0)
    ensures forall src :: Lookup(BundleHash(renamed, oldToNew), src) != Some(None)
    decreases |renamed|
  {
    if |renamed| > 0 {
      var init := renamed[..|renamed| - 1];
      forall j | 0 <= j < |init|
        ensures HasKey(oldToNew, init[j].0)
      {
        assert init[j] == renamed[j];
      }
      BundleHashDefined(init, oldToNew);
    }
  }

  // ---------------------------------------------------------------------------
  // The rewrite

  /** The rewrite throws exactly when some component's key maps to an undefined pass-2 address. */
  lemma {:induction false} RewriteFails(reg: Registry, hash: Entries<Option<string>>)
    ensures RewriteEntries(reg, hash).Err? <==>
      exists i :: 0 <= i < |reg| && Lookup(hash, FileOf(reg[i].1)) == Some(None)
    decreases |reg|
  {
    if |reg| > 0 {
      var init := reg[..|reg| - 1];
      RewriteFails(init, hash);
      if i :| 0 <= i < |init| && Lookup(hash, FileOf(init[i].1)) == Some(None) {
        assert reg[i] == init[i];
      }
      if i :| 0 <= i < |reg| && Lookup(hash, FileOf(reg[i].1)) == Some(None) {
        if i < |reg| - 1 {
          assert init[i] == reg[i];
        }
      }
    }
  }

  /**
   A successful rewrite keeps one entry per component, in the same order;
   a component whose pass-1 path plus ".js" is a bundle source gets that
   bundle's pass-2 address without ".js"; every other keeps its path.
   */
  lemma {:induction false} RewriteSpec(reg: Registry, hash: Entries<Option<string>>)
    requires RewriteEntries(reg, hash).Ok?
    ensures |RewriteEntries(reg, hash).value| == |reg|
    ensures forall i :: 0 <= i < |reg| ==> RewriteEntries(reg, hash).value[i].0 == reg[i].0
    ensures forall i :: 0 <= i < |reg| && !HasKey(hash, FileOf(reg[i].1)) ==>
      RewriteEntries(reg, hash).value[i].1 == reg[i].1
    ensures forall i, newPath :: 0 <= i < |reg| && Lookup(hash, FileOf(reg[i].1)) == Some(Some(newPath)) ==>
      RewriteEntries(reg, hash).value[i].1 == Some(StripJs(newPath))
  {
    RewriteInPlace(reg, hash);
  }

  /**
   The rewrite cannot throw when every planned bundle's copy target appears
   as an old path among the pass-2 records.
   */
  lemma NoTypeErrorWhenAllBundlesRenamed(changes: seq<RenameRecord>, renamed: Entries<string>, reg: Registry)
    requires forall j :: 0 <= j < |renamed| ==> exists i :: 0 <= i < |changes| && changes[i].oldPath == renamed[j].0
    ensures RecreateRequireConfig(changes, renamed, reg).Ok?
  {
    var oldToNew := OldToNew(changes);
    OldToNewKeys(changes);
    BundleHashDefined(renamed, oldToNew);
    RewriteFails(reg, BundleHash(renamed, oldToNew));
  }

  /**
   A component whose pass-1 file is the source of exactly one bundle is
   re-pointed at that bundle's pass-2 address, ".js" stripped.
   */
  lemma BundledComponentRepointed(changes: seq<RenameRecord>, renamed: Entries<string>, reg: Registry,
                                  c: nat, key: string, newPath: string)
    requires DistinctKeys(renamed)
    requires c < |reg|
    requires Lookup(renamed, key) == Some(FileOf(reg[c].1))
    requires forall key' :: Lookup(renamed, key') == Some(FileOf(reg[c].1)) ==> key' == key
    requires Lookup(OldToNew(changes), key) == Some(newPath)
    requires RecreateRequireConfig(changes, renamed, reg).Ok?
    ensures |RecreateRequireConfig(changes, renamed, reg).value| == |reg|
    ensures RecreateRequireConfig(changes, renamed, reg).value[c] == (reg[c].0, Some(StripJs(newPath)))
  {
    var src := FileOf(reg[c].1);
    var oldToNew := OldToNew(changes);
    var j := IndexOf(renamed, key);
    forall l | j < l < |renamed|
      ensures renamed[l].1 != renamed[j].1
    {
      LookupEntry(renamed, l);
    }
    BundleHashSpec(renamed, oldToNew, j);
    RewriteSpec(reg, BundleHash(renamed, oldToNew));
  }

  /** A component whose pass-1 file is no bundle's source keeps its entry. */
  lemma UnbundledComponentKept(changes: seq<RenameRecord>, renamed: Entries<string>, reg: Registry, c: nat)
    requires DistinctKeys(renamed)
    requires c < |reg|
    requires forall key :: Lookup(renamed, key) != Some(FileOf(reg[c].1))
    requires RecreateRequireConfig(changes, renamed, reg).Ok?
    ensures |RecreateRequireConfig(changes, renamed, reg).value| == |reg|
    ensures RecreateRequireConfig(changes, renamed, reg).value[c] == reg[c]
  {
    var hash := BundleHash(renamed, OldToNew(changes));
    BundleHashKeys(renamed, OldToNew(changes));
    if HasKey(hash, FileOf(reg[c].1)) {
      var j :| 0 <= j < |renamed| && renamed[j].1 == FileOf(reg[c].1);
      LookupEntry(renamed, j);
      assert false;
    }
    RewriteSpec(reg, hash);
  }

  /** When no component's file is a bundle source, the rewrite hands the template the pass-1 text unchanged. */
  lemma FinalTextWithoutBundles(changes: seq<RenameRecord>, renamed: Entries<string>, reg: Registry)
    requires DistinctKeys(renamed)
    requires forall c, key :: 0 <= c < |reg| ==> Lookup(renamed, key) != Some(FileOf(reg[c].1))
    requires RecreateRequireConfig(changes, renamed, reg).Ok?
    ensures RecreateRequireConfig(changes, renamed, reg).value == reg
    ensures FinalComponentListText(RecreateRequireConfig(changes, renamed, reg).value) == JoinWith(Serialize(reg), ",\n")
  {
    var final := RecreateRequireConfig(changes, renamed, reg).value;
    RewriteSpec(reg, BundleHash(renamed, OldToNew(changes)));
    forall c | 0 <= c < |reg|
      ensures final[c] == reg[c]
    {
      UnbundledComponentKept(changes, renamed, reg, c);
    }
  }
}
