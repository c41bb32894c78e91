/**
 Bundle planning, `_constructPageBundlingData` (gruntfile.js:108-158): the
 core entry is always bundled; the pages listed for bundling follow in list
 order until the first one that the pass-1 registry does not know. Every
 planned bundle is copied to `build/bundled-<name>.js`, the input of the
 second md5 pass.
 */
module Bundling {
  import opened Results
  import opened Strings
  import opened OrderedMaps
  import opened RequireConfig

  /** The core module, bundled on every build. */
  const CoreEntry: string := "appStartBuild"

  /** The modules core/core-start.js guarantees on every page, left out of every page bundle. */
  const AlwaysLoaded: seq<string> :=
    ["constants", "handlebars", "hbs", "mediator", "pageManager", "streamGroupCollection", "userManager"]

  const BaseUrl: string := "./"
  const MainConfigFile: string := "core/require.config.js"

  /** The `config.requirejs` key of a bundle: `core`, or `"page" + i` for the i-th listed page. */
  datatype Target = Core | Page(index: nat)

  /** One RequireJS optimizer configuration. */
  datatype BundleSpec = BundleSpec(target: Target, name: string, out: string, baseUrl: string,
                                   mainConfigFile: string, exclude: seq<string>)

  /** The plan: `_renamedBundledFiles`, the optimizer runs, and the copy and md5 inputs. */
  datatype Plan = Plan(renamed: Entries<string>, specs: seq<BundleSpec>,
                       copyFiles: Entries<string>, md5Files: Entries<string>)

  /** The copy target of a bundle. */
  function BundleKey(name: string): string {
    "build/bundled-" + name + ".js"
  }

  /** Different modules never share a copy target. */
  lemma BundleKeyInjective(a: string, b: string)
    requires BundleKey(a) == BundleKey(b)
    ensures a == b
  {
    SuffixCancel("build/bundled-" + a, "build/bundled-" + b, ".js");
    PrefixCancel("build/bundled-", a, b);
  }

  /** `_componentNameToMD5Path[name]`: a missing key and a recorded `undefined` read alike. */
  function RegistryValue(reg: Registry, name: string): Option<string> {
    match Lookup(reg, name)
    case Some(p) => p
    case None => None
  }

  /** `_componentNameToMD5Path[name] + ".js"`: the pass-1 file a bundle overwrites and is copied from. */
  function SourceOf(reg: Registry, name: string): string {
    FileOf(RegistryValue(reg, name))
  }

  function CoreSpec(reg: Registry): BundleSpec {
    BundleSpec(Core, CoreEntry, SourceOf(reg, CoreEntry), BaseUrl, MainConfigFile, [])
  }

  function PageSpec(reg: Registry, i: nat, name: string): BundleSpec {
    BundleSpec(Page(i), name, SourceOf(reg, name), BaseUrl, MainConfigFile, AlwaysLoaded)
  }

  /** The page loop of gruntfile.js:122-149, from index `i`, with its `break`. */
  function PlanPages(reg: Registry, pages: seq<string>, i: nat, renamed: Entries<string>, specs: seq<BundleSpec>)
    : (Entries<string>, seq<BundleSpec>)
    requires i <= |pages|
    decreases |pages| - i
  {
    if i == |pages| || !HasKey(reg, pages[i]) then (renamed, specs)
    else PlanPages(reg, pages, i + 1, Put(renamed, BundleKey(pages[i]), SourceOf(reg, pages[i])),
                   specs + [PageSpec(reg, i, pages[i])])
  }

  /** `_constructPageBundlingData()` over the pass-1 registry and `_componentsToBundle`. */
  function ConstructPageBundlingData(reg: Registry, pages: seq<string>): Plan {
    var core := Put([], BundleKey(CoreEntry), SourceOf(reg, CoreEntry));
    var planned := PlanPages(reg, pages, 0, core, [CoreSpec(reg)]);
    Plan(planned.0, planned.1, planned.0, IdentityOver(planned.0))
  }

  /** How many listed pages get planned: the length of the longest prefix the registry knows. */
  function PlannedCount(reg: Registry, pages: seq<string>): (k: nat)
    ensures k <= |pages|
    ensures forall j :: 0 <= j < k ==> HasKey(reg, pages[j])
    ensures k < |pages| ==> !HasKey(reg, pages[k])
    decreases |pages|
  {
    if |pages| == 0 || !HasKey(reg, pages[0]) then 0
    else 1 + PlannedCount(reg, pages[1..])
  }

  /** Module `n`'s copy target, when present in `renamed`, holds `n`'s pass-1 file. */
  predicate HoldsSource(renamed: Entries<string>, reg: Registry, n: string) {
    HasKey(renamed, BundleKey(n)) ==> Lookup(renamed, BundleKey(n)) == Some(SourceOf(reg, n))
  }

  /** Planning module `m` keeps module `n`'s copy target right: targets of different modules differ. */
  lemma PutKeepsSource(renamed: Entries<string>, reg: Registry, m: string, n: string)
    requires HoldsSource(renamed, reg, n)
    ensures HoldsSource(Put(renamed, BundleKey(m), SourceOf(reg, m)), reg, n)
  {
    if BundleKey(n) == BundleKey(m) {
      BundleKeyInjective(n, m);
    }
  }

  /** The page specs for listed pages `i` up to (excluding) `k`. */
  function PageSpecs(reg: Registry, pages: seq<string>, i: nat, k: nat): (r: seq<BundleSpec>)
    requires i <= k <= |pages|
    ensures |r| == k - i
    ensures forall j :: i <= j < k ==> r[j - i] == PageSpec(reg, j, pages[j])
    decreases k - i
  {
    if i == k then [] else [PageSpec(reg, i, pages[i])] + PageSpecs(reg, pages, i + 1, k)
  }

  /** The page loop appends one page spec per listed page, up to the first unknown one. */
  lemma {:induction false} PlanPagesSpecs(reg: Registry, pages: seq<string>, i: nat,
                                          renamed: Entries<string>, specs: seq<BundleSpec>)
    requires i <= PlannedCount(reg, pages)
    ensures PlanPages(reg, pages, i, renamed, specs).1 == specs + PageSpecs(reg, pages, i, PlannedCount(reg, pages))
    decreases |pages| - i
  {
    var k := PlannedCount(reg, pages);
    if i < k {
      var x := PageSpec(reg, i, pages[i]);
      var rest := PageSpecs(reg, pages, i + 1, k);
      assert (specs + [x]) + rest == specs + ([x] + rest);
      assert PageSpecs(reg, pages, i, k) == [x] + rest;
      var renamed' := Put(renamed, BundleKey(pages[i]), SourceOf(reg, pages[i]));
      assert PlanPages(reg, pages, i, renamed, specs) == PlanPages(reg, pages, i + 1, renamed', specs + [x]);
      PlanPagesSpecs(reg, pages, i + 1, renamed', specs + [x]);
    } else {
      assert specs + PageSpecs(reg, pages, i, k) == specs;
      assert PlanPages(reg, pages, i, renamed, specs) == (renamed, specs);
    }
  }

  /** The page loop keeps module `n`'s copy target holding `n`'s pass-1 file. */
  lemma {:induction false} PlanPagesTargets(reg: Registry, pages: seq<string>, i: nat,
                                            renamed: Entries<string>, specs: seq<BundleSpec>, n: string)
    requires i <= PlannedCount(reg, pages)
    requires HoldsSource(renamed, reg, n)
    ensures HoldsSource(PlanPages(reg, pages, i, renamed, specs).0, reg, n)
    decreases |pages| - i
  {
    if i < PlannedCount(reg, pages) {
      var renamed' := Put(renamed, BundleKey(pages[i]), SourceOf(reg, pages[i]));
      var specs' := specs + [PageSpec(reg, i, pages[i])];
      PutKeepsSource(renamed, reg, pages[i], n);
      PlanPagesTargets(reg, pages, i + 1, renamed', specs', n);
      assert PlanPages(reg, pages, i, renamed, specs) == PlanPages(reg, pages, i + 1, renamed', specs');
    } else {
      assert PlanPages(reg, pages, i, renamed, specs) == (renamed, specs);
    }
  }

  /** The copy targets of listed pages `i` up to (excluding) `k`. */
  function PageKeys(pages: seq<string>, i: nat, k: nat): seq<string>
    requires i <= k <= |pages|
    decreases k - i
  {
    if i == k then [] else [BundleKey(pages[i])] + PageKeys(pages, i + 1, k)
  }

  lemma {:induction false} PageKeysMembers(pages: seq<string>, i: nat, k: nat)
    requires i <= k <= |pages|
    ensures forall key :: key in PageKeys(pages, i, k) <==> exists j :: i <= j < k && key == BundleKey(pages[j])
    decreases k - i
  {
    if i < k {
      PageKeysMembers(pages, i + 1, k);
      assert PageKeys(pages, i, k) == [BundleKey(pages[i])] + PageKeys(pages, i + 1, k);
      forall key | exists j :: i <= j < k && key == BundleKey(pages[j])
        ensures key in PageKeys(pages, i, k)
      {
        var j :| i <= j < k && key == BundleKey(pages[j]);
        if j > i {
          assert key in PageKeys(pages, i + 1, k);
        }
      }
    }
  }

  /** Keys added after assigning `key0` are the old keys, then `key0`, then the later ones. */
  lemma PutThenKeys(renamed: Entries<string>, key0: string, v: string, r: Entries<string>, later: seq<string>)
    requires forall key :: HasKey(r, key) <==> HasKey(Put(renamed, key0, v), key) || key in later
    ensures forall key :: HasKey(r, key) <==> HasKey(renamed, key) || key in [key0] + later
  {
    forall key
      ensures HasKey(r, key) <==> HasKey(renamed, key) || key in [key0] + later
    {
      assert key in [key0] + later <==> key == key0 || key in later;
    }
  }

  /** The page loop adds exactly the copy targets of the pages it plans. */
  lemma {:induction false} PlanPagesKeys(reg: Registry, pages: seq<string>, i: nat,
                                         renamed: Entries<string>, specs: seq<BundleSpec>)
    requires i <= PlannedCount(reg, pages)
    ensures forall key :: HasKey(PlanPages(reg, pages, i, renamed, specs).0, key) <==>
      HasKey(renamed, key) || key in PageKeys(pages, i, PlannedCount(reg, pages))
    decreases |pages| - i
  {
    var k := PlannedCount(reg, pages);
    if i < k {
      var later := PageKeys(pages, i + 1, k);
      assert PageKeys(pages, i, k) == [BundleKey(pages[i])] + later;
      var renamed' := Put(renamed, BundleKey(pages[i]), SourceOf(reg, pages[i]));
      var specs' := specs + [PageSpec(reg, i, pages[i])];
      var r := PlanPages(reg, pages, i + 1, renamed', specs').0;
      PlanPagesKeys(reg, pages, i + 1, renamed', specs');
      PutThenKeys(renamed, BundleKey(pages[i]), SourceOf(reg, pages[i]), r, later);
      assert HasKey(reg, pages[i]);
      assert PlanPages(reg, pages, i, renamed, specs) == PlanPages(reg, pages, i + 1, renamed', specs');
    } else {
      assert PageKeys(pages, i, k) == [];
      assert PlanPages(reg, pages, i, renamed, specs) == (renamed, specs);
    }
  }

  /**
   The plan is the core bundle followed by one bundle per listed page, in
   list order, up to the first page the registry does not know; each bundle
   builds from its module's pass-1 file.
   */
  lemma PlanSpecs(reg: Registry, pages: seq<string>)
    ensures |ConstructPageBundlingData(reg, pages).specs| == PlannedCount(reg, pages) + 1
    ensures ConstructPageBundlingData(reg, pages).specs[0] == CoreSpec(reg)
    ensures forall j :: 0 <= j < PlannedCount(reg, pages) ==>
      ConstructPageBundlingData(reg, pages).specs[j + 1] == PageSpec(reg, j, pages[j])
  {
    var core := Put([], BundleKey(CoreEntry), SourceOf(reg, CoreEntry));
    var specs := ConstructPageBundlingData(reg, pages).specs;
    var k := PlannedCount(reg, pages);
    var rest := PageSpecs(reg, pages, 0, k);
    assert specs == PlanPages(reg, pages, 0, core, [CoreSpec(reg)]).1;
    PlanPagesSpecs(reg, pages, 0, core, [CoreSpec(reg)]);
    assert specs == [CoreSpec(reg)] + rest;
    forall j | 0 <= j < k
      ensures specs[j + 1] == PageSpec(reg, j, pages[j])
    {
      assert specs[j + 1] == rest[j - 0];
    }
  }

  /** Every page bundle excludes the same fixed list of modules the core always loads. */
  lemma PlanExcludes(reg: Registry, pages: seq<string>)
    ensures forall j :: 1 <= j < |ConstructPageBundlingData(reg, pages).specs| ==>
      ConstructPageBundlingData(reg, pages).specs[j].exclude == AlwaysLoaded
  {
    var specs := ConstructPageBundlingData(reg, pages).specs;
    PlanSpecs(reg, pages);
    forall j | 1 <= j < |specs|
      ensures specs[j].exclude == AlwaysLoaded
    {
      assert specs[j] == PageSpec(reg, j - 1, pages[j - 1]);
    }
  }

  /**
   `_renamedBundledFiles` holds the core's copy target and the planned
   pages' copy targets, nothing else, each mapped to its module's pass-1
   file plus ".js".
   */
  lemma PlanRenamed(reg: Registry, pages: seq<string>)
    ensures Lookup(ConstructPageBundlingData(reg, pages).renamed, BundleKey(CoreEntry)) == Some(SourceOf(reg, CoreEntry))
    ensures forall j :: 0 <= j < PlannedCount(reg, pages) ==>
      Lookup(ConstructPageBundlingData(reg, pages).renamed, BundleKey(pages[j])) == Some(SourceOf(reg, pages[j]))
    ensures forall key :: HasKey(ConstructPageBundlingData(reg, pages).renamed, key) <==>
      key == BundleKey(CoreEntry) || exists j :: 0 <= j < PlannedCount(reg, pages) && key == BundleKey(pages[j])
  {
    var renamed := ConstructPageBundlingData(reg, pages).renamed;
    assert forall key :: HasKey(renamed, key) <==>
      key == BundleKey(CoreEntry) || exists j :: 0 <= j < PlannedCount(reg, pages) && key == BundleKey(pages[j])
    by {
      var core := Put([], BundleKey(CoreEntry), SourceOf(reg, CoreEntry));
      assert renamed == PlanPages(reg, pages, 0, core, [CoreSpec(reg)]).0;
      PlanPagesKeys(reg, pages, 0, core, [CoreSpec(reg)]);
      PageKeysMembers(pages, 0, PlannedCount(reg, pages));
    }
    PlanTarget(reg, pages, CoreEntry);
    forall j | 0 <= j < PlannedCount(reg, pages)
      ensures Lookup(renamed, BundleKey(pages[j])) == Some(SourceOf(reg, pages[j]))
    {
      PlanTarget(reg, pages, pages[j]);
    }
  }

  /** A module's copy target, when planned, holds the module's pass-1 file. */
  lemma PlanTarget(reg: Registry, pages: seq<string>, n: string)
    ensures HoldsSource(ConstructPageBundlingData(reg, pages).renamed, reg, n)
  {
    var core := Put([], BundleKey(CoreEntry), SourceOf(reg, CoreEntry));
    assert ConstructPageBundlingData(reg, pages).renamed == PlanPages(reg, pages, 0, core, [CoreSpec(reg)]).0;
    PutKeepsSource([], reg, CoreEntry, n);
    PlanPagesTargets(reg, pages, 0, core, [CoreSpec(reg)], n);
  }

  /** The second md5 pass hashes every copy target in place: its input maps each target to itself. */
  lemma PlanMd5Input(reg: Registry, pages: seq<string>)
    ensures Keys(ConstructPageBundlingData(reg, pages).md5Files) == Keys(ConstructPageBundlingData(reg, pages).renamed)
    ensures forall e :: e in ConstructPageBundlingData(reg, pages).md5Files ==> e.1 == e.0
  {
    var md5 := ConstructPageBundlingData(reg, pages).md5Files;
    forall e | e in md5
      ensures e.1 == e.0
    {
      var i :| 0 <= i < |md5| && md5[i] == e;
    }
  }

  /** Fail fast: with pages [a, b, c] and b unknown, only a is planned, whatever c is. */
  lemma PlanStopsAtFirstUnknown(reg: Registry, a: string, b: string, c: string)
    requires HasKey(reg, a)
    requires !HasKey(reg, b)
    ensures ConstructPageBundlingData(reg, [a, b, c]).specs == [CoreSpec(reg), PageSpec(reg, 0, a)]
  {
    var pages := [a, b, c];
    assert pages[1..] == [b, c];
    assert PlannedCount(reg, pages) == 1;
    PlanSpecs(reg, pages);
  }

  /** The page loop never duplicates a copy target. */
  lemma {:induction false} PlanPagesDistinct(reg: Registry, pages: seq<string>, i: nat,
                                             renamed: Entries<string>, specs: seq<BundleSpec>)
    requires i <= |pages|
    requires DistinctKeys(renamed)
    ensures DistinctKeys(PlanPages(reg, pages, i, renamed, specs).0)
    decreases |pages| - i
  {
    if i < |pages| && HasKey(reg, pages[i]) {
      var renamed' := Put(renamed, BundleKey(pages[i]), SourceOf(reg, pages[i]));
      PutDistinct(renamed, BundleKey(pages[i]), SourceOf(reg, pages[i]));
      assert PlanPages(reg, pages, i, renamed, specs) ==
        PlanPages(reg, pages, i + 1, renamed', specs + [PageSpec(reg, i, pages[i])]);
      PlanPagesDistinct(reg, pages, i + 1, renamed', specs + [PageSpec(reg, i, pages[i])]);
    } else {
      assert PlanPages(reg, pages, i, renamed, specs) == (renamed, specs);
    }
  }

  /** A module gets a bundle: the core entry, or one of the listed pages before the first unknown one. */
  predicate Planned(reg: Registry, pages: seq<string>, n: string) {
    n == CoreEntry || exists j :: 0 <= j < PlannedCount(reg, pages) && pages[j] == n
  }

  /**
   `_renamedBundledFiles` is an object whose keys are exactly the copy
   targets of the planned modules, each holding that module's pass-1 file.
   */
  lemma PlanRenamedByModule(reg: Registry, pages: seq<string>)
    ensures DistinctKeys(ConstructPageBundlingData(reg, pages).renamed)
    ensures forall n :: Planned(reg, pages, n) ==>
      Lookup(ConstructPageBundlingData(reg, pages).renamed, BundleKey(n)) == Some(SourceOf(reg, n))
    ensures forall key :: HasKey(ConstructPageBundlingData(reg, pages).renamed, key) ==>
      exists n :: Planned(reg, pages, n) && key == BundleKey(n)
  {
    var core := Put([], BundleKey(CoreEntry), SourceOf(reg, CoreEntry));
    PutDistinct([], BundleKey(CoreEntry), SourceOf(reg, CoreEntry));
    PlanPagesDistinct(reg, pages, 0, core, [CoreSpec(reg)]);
    PlanRenamed(reg, pages);
    forall key | HasKey(ConstructPageBundlingData(reg, pages).renamed, key)
      ensures exists n :: Planned(reg, pages, n) && key == BundleKey(n)
    {
      if key != BundleKey(CoreEntry) {
        var j :| 0 <= j < PlannedCount(reg, pages) && key == BundleKey(pages[j]);
        assert Planned(reg, pages, pages[j]);
      } else {
        assert Planned(reg, pages, CoreEntry);
      }
    }
  }

  /** In an object, a module's pass-1 file is its own entry's path. */
  lemma SourceOfEntry(reg: Registry, c: nat)
    requires DistinctKeys(reg)
    requires c < |reg|
    ensures SourceOf(reg, reg[c].0) == FileOf(reg[c].1)
  {
    LookupEntry(reg, c);
  }

  /** A pass-1 file that only one planned module has is held by that module's copy target alone. */
  lemma UniqueSourceTarget(reg: Registry, pages: seq<string>, n: string, key: string)
    requires forall m :: Planned(reg, pages, m) && m != n ==> SourceOf(reg, m) != SourceOf(reg, n)
    requires Lookup(ConstructPageBundlingData(reg, pages).renamed, key) == Some(SourceOf(reg, n))
    ensures key == BundleKey(n)
  {
    var renamed := ConstructPageBundlingData(reg, pages).renamed;
    PlanRenamedByModule(reg, pages);
    assert HasKey(renamed, key);
    var m :| Planned(reg, pages, m) && key == BundleKey(m);
    assert Lookup(renamed, BundleKey(m)) == Some(SourceOf(reg, m));
  }

  /** A file that is no planned module's pass-1 file is held by no copy target. */
  lemma UnplannedSource(reg: Registry, pages: seq<string>, src: string, key: string)
    requires forall m :: Planned(reg, pages, m) ==> SourceOf(reg, m) != src
    ensures Lookup(ConstructPageBundlingData(reg, pages).renamed, key) != Some(src)
  {
    var renamed := ConstructPageBundlingData(reg, pages).renamed;
    PlanRenamedByModule(reg, pages);
    if HasKey(renamed, key) {
      var m :| Planned(reg, pages, m) && key == BundleKey(m);
      assert Lookup(renamed, BundleKey(m)) == Some(SourceOf(reg, m));
    }
  }
}
