/**
 Pass 1 of the registry bookkeeping in gruntfile.js: the MD5 input map, the
 list of JavaScript module paths, and the component list that fills the
 RequireJS `paths` configuration and the shared registry
 `_componentNameToMD5Path` (logical module name -> path without ".js").
 */
module RequireConfig {
  import opened Results
  import opened Strings
  import opened OrderedMaps

  /** `_requireJSModulePaths`: logical module name -> source path, in configuration order. */
  type ModulePaths = Entries<string>

  /** `_componentNameToMD5Path`: logical module name -> path, `undefined` (None) when the file was missing. */
  type Registry = Entries<Option<string>>

  /** How a possibly-undefined path prints when concatenated into a string. */
  function Show(p: Option<string>): string {
    match p
    case Some(s) => s
    case None => "undefined"
  }

  /**
   The file a registry path names: the path, printed as a string, plus ".js".
   A component is looked up under it (gruntfile.js:181) and a bundle is
   written over it (gruntfile.js:111, 127).
   */
  function FileOf(p: Option<string>): string {
    Show(p) + ".js"
  }

  /** One line of the generated `paths` block: `\t\t"name": "path"`. */
  function Line(name: string, path: Option<string>): string {
    "\t\t\"" + name + "\": \"" + Show(path) + "\""
  }

  /** The lines a registry prints as, in registry order. */
  function Serialize(reg: Registry): seq<string> {
    seq(|reg|, i requires 0 <= i < |reg| => Line(reg[i].0, reg[i].1))
  }

  // ---------------------------------------------------------------------------
  // _getMD5PathMap

  /** `_getMD5PathMap()`: the md5 task's file map, `"build/" + p` -> `p` for every configured path. */
  function Md5PathMap(ms: ModulePaths): Entries<string>
    decreases |ms|
  {
    if |ms| == 0 then []
    else Put(Md5PathMap(ms[..|ms| - 1]), "build/" + ms[|ms| - 1].1, ms[|ms| - 1].1)
  }

  /** Every configured path `p` is mapped from `"build/" + p`, and nothing else is in the map. */
  lemma {:induction false} Md5PathMapSpec(ms: ModulePaths)
    ensures DistinctKeys(Md5PathMap(ms))
    ensures forall i :: 0 <= i < |ms| ==> Lookup(Md5PathMap(ms), "build/" + ms[i].1) == Some(ms[i].1)
    ensures forall k :: HasKey(Md5PathMap(ms), k) ==> exists i :: 0 <= i < |ms| && k == "build/" + ms[i].1
    decreases |ms|
  {
    if |ms| > 0 {
      var init := ms[..|ms| - 1];
      var p := ms[|ms| - 1].1;
      Md5PathMapSpec(init);
      PutDistinct(Md5PathMap(init), "build/" + p, p);
      forall i | 0 <= i < |ms|
        ensures Lookup(Md5PathMap(ms), "build/" + ms[i].1) == Some(ms[i].1)
      {
        if i < |ms| - 1 {
          assert init[i] == ms[i];
          if "build/" + ms[i].1 == "build/" + p {
            PrefixCancel("build/", ms[i].1, p);
          }
        }
      }
      forall k | HasKey(Md5PathMap(ms), k)
        ensures exists i :: 0 <= i < |ms| && k == "build/" + ms[i].1
      {
        if k != "build/" + p {
          assert HasKey(Md5PathMap(init), k);
          var i :| 0 <= i < |init| && k == "build/" + init[i].1;
          assert ms[i] == init[i];
        }
      }
    }
  }

  /** Each entry of the md5 map pairs `"build/" + p` with `p` itself. */
  lemma {:induction false} Md5PathMapEntries(ms: ModulePaths)
    ensures forall e :: e in Md5PathMap(ms) ==> e.0 == "build/" + e.1
  {
    var r := Md5PathMap(ms);
    Md5PathMapSpec(ms);
    forall e | e in r
      ensures e.0 == "build/" + e.1
    {
      var j :| 0 <= j < |r| && r[j] == e;
      LookupEntry(r, j);
      assert HasKey(r, e.0);
      var i :| 0 <= i < |ms| && e.0 == "build/" + ms[i].1;
    }
  }

  // ---------------------------------------------------------------------------
  // _requireJSModulesJSOnly

  /** `_requireJSModulesJSOnly()`: the configured paths matching `/\.js$/`, in configuration order. */
  function JsOnly(ms: ModulePaths): seq<string>
    decreases |ms|
  {
    if |ms| == 0 then []
    else JsOnly(ms[..|ms| - 1]) + (if EndsWith(ms[|ms| - 1].1, ".js") then [ms[|ms| - 1].1] else [])
  }

  /** A path is kept exactly when it is configured and ends in ".js". */
  lemma {:induction false} JsOnlyMembers(ms: ModulePaths)
    ensures forall x :: x in JsOnly(ms) <==> exists i :: 0 <= i < |ms| && ms[i].1 == x && EndsWith(x, ".js")
    decreases |ms|
  {
    if |ms| > 0 {
      var init := ms[..|ms| - 1];
      JsOnlyMembers(init);
      forall x
        ensures x in JsOnly(ms) <==> exists i :: 0 <= i < |ms| && ms[i].1 == x && EndsWith(x, ".js")
      {
        if x in JsOnly(init) {
          var i :| 0 <= i < |init| && init[i].1 == x && EndsWith(x, ".js");
          assert ms[i] == init[i];
        }
        if i :| 0 <= i < |ms| && ms[i].1 == x && EndsWith(x, ".js") {
          if i < |ms| - 1 {
            assert init[i] == ms[i];
          }
        }
      }
    }
  }

  /** A single configured path is kept, once, exactly when it ends in ".js". */
  lemma JsOnlySingle(m: (string, string))
    ensures JsOnly([m]) == if EndsWith(m.1, ".js") then [m.1] else []
  {
  }

  /** The filter respects configuration order: filtering a concatenation concatenates the filtered halves. */
  lemma {:induction false} JsOnlyAppend(a: ModulePaths, b: ModulePaths)
    ensures JsOnly(a + b) == JsOnly(a) + JsOnly(b)
    decreases |b|
  {
    if |b| == 0 {
      assert a + b == a;
    } else {
      var b' := b[..|b| - 1];
      assert (a + b)[..|a + b| - 1] == a + b';
      JsOnlyAppend(a, b');
    }
  }

  // ---------------------------------------------------------------------------
  // _getRequireConfigJSComponentList

  /** The `params` object: `isBundled` and `fileMap` may each be absent. */
  datatype Params = Params(isBundled: Option<bool>, fileMap: Option<Entries<string>>)

  /** The argument `_setBuildEnvironment` passes: `{ bundled: false }`, which has neither property. */
  const UnbundledCall: Params := Params(None, None)

  /** The argument the md5 `after` callback passes. */
  function BundledCall(fileMap: Entries<string>): Params {
    Params(Some(true), Some(fileMap))
  }

  /** The path a module is looked up to: its source path, or the rename map's entry for it when bundled. */
  function LookedUp(params: Params, source: string): Option<string> {
    if params.isBundled == Some(true) then
      Lookup(if params.fileMap.Some? then params.fileMap.value else [], source)
    else Some(source)
  }

  /** JavaScript truthiness of a possibly-undefined string. */
  predicate Truthy(p: Option<string>) {
    p.Some? && p.value != ""
  }

  /** What is recorded for a looked-up path: ".js" stripped when truthy, the value unchanged otherwise. */
  function Recorded(cur: Option<string>): (r: Option<string>)
    ensures r.Some? <==> cur.Some?
    ensures r.Some? ==> cur == r || cur == Some(r.value + ".js")
    ensures !Truthy(cur) ==> r == cur
    ensures Truthy(cur) && EndsWith(cur.value, ".js") ==> r.Some? && r.value + ".js" == cur.value
    ensures Truthy(cur) && !EndsWith(cur.value, ".js") ==> r == cur
  {
    if Truthy(cur) then Some(StripJs(cur.value)) else cur
  }

  function RecordedPath(params: Params, source: string): Option<string> {
    Recorded(LookedUp(params, source))
  }

  /** What one call produces: the printed lines, the updated registry and the names warned about. */
  datatype ComponentList = ComponentList(lines: seq<string>, registry: Registry, warnings: seq<string>)

  /** `_getRequireConfigJSComponentList(params)`, starting from registry `reg`. */
  function BuildComponentList(ms: ModulePaths, params: Params, reg: Registry): (cl: ComponentList)
    ensures |cl.lines| == |ms|
    ensures |cl.warnings| <= |ms|
    decreases |ms|
  {
    if |ms| == 0 then ComponentList([], reg, [])
    else
      var prev := BuildComponentList(ms[..|ms| - 1], params, reg);
      var name := ms[|ms| - 1].0;
      var cur := LookedUp(params, ms[|ms| - 1].1);
      var path := Recorded(cur);
      ComponentList(prev.lines + [Line(name, path)],
                    Put(prev.registry, name, path),
                    prev.warnings + (if Truthy(cur) then [] else [name]))
  }

  /** The string the function returns: the lines joined by ",\n". */
  function ComponentListText(cl: ComponentList): string {
    JoinWith(cl.lines, ",\n")
  }

  /** Line i names the i-th configured module and its recorded path. */
  lemma {:induction false} ComponentListLines(ms: ModulePaths, params: Params, reg: Registry)
    ensures forall i :: 0 <= i < |ms| ==>
      BuildComponentList(ms, params, reg).lines[i] == Line(ms[i].0, RecordedPath(params, ms[i].1))
    decreases |ms|
  {
    if |ms| > 0 {
      var init := ms[..|ms| - 1];
      ComponentListLines(init, params, reg);
      forall i | 0 <= i < |ms| - 1
        ensures BuildComponentList(ms, params, reg).lines[i] == Line(ms[i].0, RecordedPath(params, ms[i].1))
      {
        assert init[i] == ms[i];
      }
    }
  }

  /** Every configured name is recorded with its looked-up path, one ".js" stripped, or `undefined`. */
  lemma {:induction false} ComponentListRecords(ms: ModulePaths, params: Params, reg: Registry)
    requires DistinctKeys(ms)
    ensures forall i :: 0 <= i < |ms| ==>
      Lookup(BuildComponentList(ms, params, reg).registry, ms[i].0) == Some(RecordedPath(params, ms[i].1))
    decreases |ms|
  {
    if |ms| > 0 {
      var init := ms[..|ms| - 1];
      var last := |ms| - 1;
      ComponentListRecords(init, params, reg);
      forall i | 0 <= i < last
        ensures Lookup(BuildComponentList(ms, params, reg).registry, ms[i].0) == Some(RecordedPath(params, ms[i].1))
      {
        assert init[i] == ms[i];
        assert ms[i].0 != ms[last].0;
      }
    }
  }

  /** Registry entries of names that are not configured are left as they were. */
  lemma {:induction false} ComponentListKeepsOthers(ms: ModulePaths, params: Params, reg: Registry)
    ensures forall k :: !HasKey(ms, k) ==>
      Lookup(BuildComponentList(ms, params, reg).registry, k) == Lookup(reg, k)
    decreases |ms|
  {
    if |ms| > 0 {
      var init := ms[..|ms| - 1];
      var last := |ms| - 1;
      ComponentListKeepsOthers(init, params, reg);
      forall k | !HasKey(ms, k)
        ensures Lookup(BuildComponentList(ms, params, reg).registry, k) == Lookup(reg, k)
      {
        HasKeyIsKey(ms, k);
        HasKeyIsKey(init, k);
        assert Keys(ms)[last] == ms[last].0;
        assert Keys(init) == Keys(ms)[..last];
      }
    }
  }

  /** The last configured module adds its name to the warnings exactly when its looked-up path is falsy. */
  lemma WarningsSnoc(ms: ModulePaths, params: Params, reg: Registry)
    requires |ms| > 0
    ensures BuildComponentList(ms, params, reg).warnings ==
      BuildComponentList(ms[..|ms| - 1], params, reg).warnings
      + (if Truthy(LookedUp(params, ms[|ms| - 1].1)) then [] else [ms[|ms| - 1].0])
  {
  }

  /** The last module's warning extends the warned names by that module exactly when its path is falsy. */
  lemma WarnedSnoc(ms: ModulePaths, params: Params, init: ModulePaths, prev: seq<string>, w: seq<string>)
    requires |ms| > 0 && init == ms[..|ms| - 1]
    requires w == if Truthy(LookedUp(params, ms[|ms| - 1].1)) then [] else [ms[|ms| - 1].0]
    requires forall n :: n in prev <==>
      (exists i :: 0 <= i < |init| && init[i].0 == n && !Truthy(LookedUp(params, init[i].1)))
    ensures forall n :: n in prev + w <==>
      (exists i :: 0 <= i < |ms| && ms[i].0 == n && !Truthy(LookedUp(params, ms[i].1)))
  {
    var last := |ms| - 1;
    forall n | n in prev + w
      ensures exists i :: 0 <= i < |ms| && ms[i].0 == n && !Truthy(LookedUp(params, ms[i].1))
    {
      if n in prev {
        var i :| 0 <= i < |init| && init[i].0 == n && !Truthy(LookedUp(params, init[i].1));
        assert ms[i] == init[i];
      } else {
        assert n in w;
      }
    }
    forall n, i | 0 <= i < |ms| && ms[i].0 == n && !Truthy(LookedUp(params, ms[i].1))
      ensures n in prev + w
    {
      if i < last {
        assert init[i] == ms[i];
        assert n in prev;
      } else {
        assert n in w;
      }
    }
  }

  /** A warning names exactly the configured modules whose looked-up path is falsy. */
  lemma {:induction false} ComponentListWarnings(ms: ModulePaths, params: Params, reg: Registry)
    ensures forall n :: n in BuildComponentList(ms, params, reg).warnings <==>
      exists i :: 0 <= i < |ms| && ms[i].0 == n && !Truthy(LookedUp(params, ms[i].1))
    decreases |ms|
  {
    if |ms| > 0 {
      ComponentListWarnings(ms[..|ms| - 1], params, reg);
      var w := if Truthy(LookedUp(params, ms[|ms| - 1].1)) then [] else [ms[|ms| - 1].0];
      WarnedSnoc(ms, params, ms[..|ms| - 1], BuildComponentList(ms[..|ms| - 1], params, reg).warnings, w);
      WarningsSnoc(ms, params, reg);
    }
  }

  /** The registry a build records from scratch: one entry per configured module, in order. */
  function RecordedEntries(ms: ModulePaths, params: Params): (r: Registry)
    ensures |r| == |ms|
  {
    seq(|ms|, i requires 0 <= i < |ms| => (ms[i].0, RecordedPath(params, ms[i].1)))
  }

  lemma RecordedEntriesSnoc(ms: ModulePaths, params: Params)
    requires |ms| > 0
    ensures RecordedEntries(ms, params) ==
      RecordedEntries(ms[..|ms| - 1], params) + [(ms[|ms| - 1].0, RecordedPath(params, ms[|ms| - 1].1))]
  {
  }

  /** Starting from an empty registry, each configured module is appended in turn. */
  lemma {:induction false} RegistryFromEmpty(ms: ModulePaths, params: Params)
    requires DistinctKeys(ms)
    ensures BuildComponentList(ms, params, []).registry == RecordedEntries(ms, params)
    decreases |ms|
  {
    if |ms| > 0 {
      var init := ms[..|ms| - 1];
      var last := |ms| - 1;
      var name := ms[last].0;
      var path := RecordedPath(params, ms[last].1);
      var prev := RecordedEntries(init, params);
      RegistryFromEmpty(init, params);
      assert BuildComponentList(ms, params, []).registry == Put(prev, name, path);
      IndexOfUnique(prev, name, |prev|);
      PutOrder(prev, name, path);
      RecordedEntriesSnoc(ms, params);
    }
  }

  /**
   Starting from an empty registry (as each build does), the registry holds
   exactly one entry per configured module, in configuration order, and the
   printed lines are exactly that registry's serialization.
   */
  lemma ComponentListFromEmpty(ms: ModulePaths, params: Params)
    requires DistinctKeys(ms)
    ensures BuildComponentList(ms, params, []).registry == RecordedEntries(ms, params)
    ensures Keys(BuildComponentList(ms, params, []).registry) == Keys(ms)
    ensures BuildComponentList(ms, params, []).lines == Serialize(BuildComponentList(ms, params, []).registry)
  {
    var reg := RecordedEntries(ms, params);
    var lines := BuildComponentList(ms, params, []).lines;
    RegistryFromEmpty(ms, params);
    ComponentListLines(ms, params, []);
    forall i | 0 <= i < |ms|
      ensures Keys(reg)[i] == Keys(ms)[i]
      ensures lines[i] == Serialize(reg)[i]
    {
    }
  }

  /**
   A module whose file is missing from the rename map is not dropped: its
   name is recorded as `undefined`, printed as "undefined" and warned about.
   */
  lemma {:induction false} MissingFileKeepsModule(ms: ModulePaths, fileMap: Entries<string>, reg: Registry, i: nat)
    requires DistinctKeys(ms)
    requires i < |ms|
    requires !HasKey(fileMap, ms[i].1)
    ensures Lookup(BuildComponentList(ms, BundledCall(fileMap), reg).registry, ms[i].0) == Some(None)
    ensures BuildComponentList(ms, BundledCall(fileMap), reg).lines[i] == Line(ms[i].0, None)
    ensures ms[i].0 in BuildComponentList(ms, BundledCall(fileMap), reg).warnings
  {
    ComponentListRecords(ms, BundledCall(fileMap), reg);
    ComponentListLines(ms, BundledCall(fileMap), reg);
    ComponentListWarnings(ms, BundledCall(fileMap), reg);
  }

  /**
   The `{ bundled: false }` call reads no `isBundled` and no `fileMap`, so it
   behaves as an unbundled call whatever rename map exists: every module keeps
   its own source path, ".js" stripped.
   */
  lemma {:induction false} UnbundledCallUsesSourcePaths(ms: ModulePaths, fileMap: Entries<string>, reg: Registry)
    ensures BuildComponentList(ms, UnbundledCall, reg) == BuildComponentList(ms, Params(Some(false), Some(fileMap)), reg)
    ensures forall i :: 0 <= i < |ms| ==> RecordedPath(UnbundledCall, ms[i].1) == Recorded(Some(ms[i].1))
    decreases |ms|
  {
    if |ms| > 0 {
      UnbundledCallUsesSourcePaths(ms[..|ms| - 1], fileMap, reg);
    }
  }
}
