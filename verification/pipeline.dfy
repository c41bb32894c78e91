/**
 The path bookkeeping of a production build (the `prod` task,
 gruntfile.js:345-358), with the grunt plugins' effects taken as inputs:
 the first md5 pass renames every configured file (`firstRenames`), the
 classifier and the pass-1 registry follow, bundling is planned over the
 page list, and the second md5 pass renames the copied bundles
 (`secondRenames`), after which the registry is rewritten.
 */
module Pipeline {
  import opened Results
  import opened Strings
  import opened OrderedMaps
  import opened RequireConfig
  import opened Classifier
  import opened Bundling
  import opened Rewrite

  datatype Build = Build(classification: Classification, pass1: ComponentList, plan: Plan,
                         final: Result<Registry, RewriteError>)

  /** `_componentNameToMD5Path` after the first md5 pass. */
  function Pass1(ms: ModulePaths, firstRenames: seq<RenameRecord>): ComponentList {
    BuildComponentList(ms, BundledCall(Classify(firstRenames).fileMap), [])
  }

  /** The bundling plan built on the pass-1 registry and the page list. */
  function PlanOf(ms: ModulePaths, firstRenames: seq<RenameRecord>, pages: seq<string>): Plan {
    ConstructPageBundlingData(Pass1(ms, firstRenames).registry, pages)
  }

  /** One production build. The production environment is minified, so the registry starts empty. */
  function ProdBuild(ms: ModulePaths, firstRenames: seq<RenameRecord>, pages: seq<string>,
                     secondRenames: seq<RenameRecord>): Build
  {
    var pass1 := Pass1(ms, firstRenames);
    var plan := PlanOf(ms, firstRenames, pages);
    Build(Classify(firstRenames), pass1, plan, RecreateRequireConfig(secondRenames, plan.renamed, pass1.registry))
  }

  /** Every copy target planned in the build is among the old paths of the second md5 pass. */
  predicate AllBundlesRenamed(plan: Plan, secondRenames: seq<RenameRecord>) {
    forall j :: 0 <= j < |plan.renamed| ==>
      exists i :: 0 <= i < |secondRenames| && secondRenames[i].oldPath == plan.renamed[j].0
  }

  /** The pass-1 registry is the configuration's module list, one entry per module, in order. */
  lemma Pass1Registry(ms: ModulePaths, firstRenames: seq<RenameRecord>)
    requires DistinctKeys(ms)
    ensures |Pass1(ms, firstRenames).registry| == |ms|
    ensures DistinctKeys(Pass1(ms, firstRenames).registry)
    ensures forall c :: 0 <= c < |ms| ==> Pass1(ms, firstRenames).registry[c].0 == ms[c].0
  {
    var reg := Pass1(ms, firstRenames).registry;
    ComponentListFromEmpty(ms, BundledCall(Classify(firstRenames).fileMap));
    forall c | 0 <= c < |ms|
      ensures reg[c].0 == ms[c].0
    {
      assert Keys(reg)[c] == Keys(ms)[c];
    }
  }

  /**
   When every planned bundle was renamed by the second pass, the rewrite
   succeeds and the final registry names the configured modules, in order.
   */
  lemma FinalRegistryShape(ms: ModulePaths, firstRenames: seq<RenameRecord>, pages: seq<string>,
                           secondRenames: seq<RenameRecord>)
    requires DistinctKeys(ms)
    requires AllBundlesRenamed(PlanOf(ms, firstRenames, pages), secondRenames)
    ensures ProdBuild(ms, firstRenames, pages, secondRenames).final.Ok?
    ensures |ProdBuild(ms, firstRenames, pages, secondRenames).final.value| == |ms|
    ensures forall c :: 0 <= c < |ms| ==> ProdBuild(ms, firstRenames, pages, secondRenames).final.value[c].0 == ms[c].0
  {
    var b := ProdBuild(ms, firstRenames, pages, secondRenames);
    NoTypeErrorWhenAllBundlesRenamed(secondRenames, b.plan.renamed, b.pass1.registry);
    Pass1Registry(ms, firstRenames);
    RewriteSpec(b.pass1.registry, BundleHash(b.plan.renamed, OldToNew(secondRenames)));
  }

  /**
   A bundled module (the core or a planned page) whose pass-1 file no other
   planned module shares ends up at its bundle's pass-2 address, ".js" stripped:
   the new path of the last pass-2 record for its copy target.
   */
  lemma BundledModuleRepointed(ms: ModulePaths, firstRenames: seq<RenameRecord>, pages: seq<string>,
                               secondRenames: seq<RenameRecord>, c: nat, i: nat)
    requires DistinctKeys(ms)
    requires c < |ms|
    requires Planned(Pass1(ms, firstRenames).registry, pages, ms[c].0)
    requires forall n :: Planned(Pass1(ms, firstRenames).registry, pages, n) && n != ms[c].0 ==>
      SourceOf(Pass1(ms, firstRenames).registry, n) != SourceOf(Pass1(ms, firstRenames).registry, ms[c].0)
    requires AllBundlesRenamed(PlanOf(ms, firstRenames, pages), secondRenames)
    requires i < |secondRenames|
    requires secondRenames[i].oldPath == BundleKey(ms[c].0)
    requires forall j :: i < j < |secondRenames| ==> secondRenames[j].oldPath != secondRenames[i].oldPath
    ensures ProdBuild(ms, firstRenames, pages, secondRenames).final.Ok?
    ensures |ProdBuild(ms, firstRenames, pages, secondRenames).final.value| == |ms|
    ensures ProdBuild(ms, firstRenames, pages, secondRenames).final.value[c] ==
      (ms[c].0, Some(StripJs(secondRenames[i].newPath)))
  {
    OldToNewSpec(secondRenames, i);
    var reg := Pass1(ms, firstRenames).registry;
    var renamed := ConstructPageBundlingData(reg, pages).renamed;
    var n := ms[c].0;
    FinalRegistryShape(ms, firstRenames, pages, secondRenames);
    Pass1Registry(ms, firstRenames);
    SourceOfEntry(reg, c);
    PlanRenamedByModule(reg, pages);
    forall key' | Lookup(renamed, key') == Some(FileOf(reg[c].1))
      ensures key' == BundleKey(n)
    {
      UniqueSourceTarget(reg, pages, n, key');
    }
    BundledComponentRepointed(secondRenames, renamed, reg, c, BundleKey(n), secondRenames[i].newPath);
  }

  /** A module whose pass-1 file is no planned module's source keeps its pass-1 path. */
  lemma OtherModuleKept(ms: ModulePaths, firstRenames: seq<RenameRecord>, pages: seq<string>,
                        secondRenames: seq<RenameRecord>, c: nat)
    requires DistinctKeys(ms)
    requires c < |ms|
    requires forall n :: Planned(Pass1(ms, firstRenames).registry, pages, n) ==>
      SourceOf(Pass1(ms, firstRenames).registry, n) != SourceOf(Pass1(ms, firstRenames).registry, ms[c].0)
    requires AllBundlesRenamed(PlanOf(ms, firstRenames, pages), secondRenames)
    ensures ProdBuild(ms, firstRenames, pages, secondRenames).final.Ok?
    ensures |ProdBuild(ms, firstRenames, pages, secondRenames).final.value| == |ms|
    ensures |Pass1(ms, firstRenames).registry| == |ms|
    ensures ProdBuild(ms, firstRenames, pages, secondRenames).final.value[c] == Pass1(ms, firstRenames).registry[c]
  {
    var reg := Pass1(ms, firstRenames).registry;
    var renamed := ConstructPageBundlingData(reg, pages).renamed;
    FinalRegistryShape(ms, firstRenames, pages, secondRenames);
    Pass1Registry(ms, firstRenames);
    SourceOfEntry(reg, c);
    PlanRenamedByModule(reg, pages);
    forall key
      ensures Lookup(renamed, key) != Some(FileOf(reg[c].1))
    {
      UnplannedSource(reg, pages, FileOf(reg[c].1), key);
    }
    UnbundledComponentKept(secondRenames, renamed, reg, c);
  }
}
