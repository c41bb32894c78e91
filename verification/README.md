# Path bookkeeping of the RequireJS + MD5 build

This project models how the build script `gruntfile.js` keeps track of file
paths: across the first MD5 rename pass, the RequireJS `paths` registry it
fills, the bundling plan built on that registry, and the second rename pass
that re-points bundled modules at their hashed bundles. The Dafny model is
pure and functional. JavaScript objects become ordered association lists:
assignment replaces a value in place or appends the key, so `for … in` order
is insertion order. `undefined` becomes `None`. Each `for` loop becomes a
left fold over its input.

Modules:

- `Results` (`results.dfy`): `Option` and `Result`.
- `Strings` (`strings.dfy`): the anchored `/\.js$/` and `/\.hbs$/` tests and replacements, plus `split("/")` and `join`.
- `OrderedMaps` (`ordered_maps.dfy`): JavaScript objects used as dictionaries. Covers assignment, `hasOwnProperty` and lookup.
- `RequireConfig` (`require_config.dfy`): `_getMD5PathMap`, `_requireJSModulesJSOnly` and `_getRequireConfigJSComponentList`. This includes the `{ bundled: false }` call made by `_setBuildEnvironment`.
- `Classifier` (`classifier.dfy`): the `after` callback of the first md5 task. It sorts rename records into scripts, Handlebars templates and other files, and renames templates to `hbs-<name>.js`.
- `Bundling` (`bundling.dfy`): `_constructPageBundlingData`. Covers the core bundle, the page bundles up to the first unknown page, `_renamedBundledFiles` and the copy and md5 inputs.
- `Rewrite` (`rewrite.dfy`): `_recreateRequireConfigFileForBundledFiles`.
- `Pipeline` (`pipeline.dfy`): the production build's path bookkeeping, composed end to end. The grunt plugins' renames are taken as inputs.

Bundle planning stops at the first listed page that is not an own key of
the registry (gruntfile.js:123), not at the first page whose path is
unresolved. A page recorded as `undefined` is still planned, and its bundle
is written to `undefined.js`. In the model, `PlanPages` breaks on `!HasKey`,
and `FileOf` prints a recorded `undefined` as "undefined".

## Model

| member | source | states |
|---|---|---|
| Strings.StripJs | gruntfile.js:59 | Removes exactly one trailing ".js" when there is one, so that the result plus ".js" is the input. Any other input is unchanged. |
| Strings.StripJsAppendJs | gruntfile.js:182 | Stripping undoes appending ".js", the round trip between registry paths and file names. |
| Strings.StripJsRemovesOnlyOne | gruntfile.js:59 | The anchored replace removes only one ".js": `a.js.js` becomes `a.js`. |
| Strings.HbsToJs | gruntfile.js:263 | A ".hbs" name becomes the same stem with ".js". Any other name is unchanged. |
| Strings.JoinSplit | gruntfile.js:261-264 | Joining the "/"-segments of a path gives back the path. |
| Strings.SplitJoin | gruntfile.js:261-264 | Splitting a join of slash-free segments gives back the segments. |
| Strings.SplitSegmentsHaveNoSlash | gruntfile.js:261 | No segment produced by `split("/")` contains a slash. |
| Strings.Split | gruntfile.js:261 | Models `split("/")`. It always gives at least one segment. `JoinSplit`, `SplitJoin` and `SplitSegmentsHaveNoSlash` pin it down as the inverse of `Join`. |
| Strings.Join | gruntfile.js:264 | Models `join("/")`. `JoinSplit` and `SplitJoin` make it the inverse of `Split` on slash-free segments. |
| OrderedMaps.Put | gruntfile.js:66 | After assignment the key reads back the new value and every other key reads as before. The key set grows by that key only. |
| OrderedMaps.PutOrder | gruntfile.js:177 | An assigned key keeps its enumeration position when it was already present. Otherwise it is enumerated last. |
| OrderedMaps.PutDistinct | gruntfile.js:66 | Assignment keeps an object's keys distinct. |
| OrderedMaps.HasKeyIsKey | gruntfile.js:123 | `hasOwnProperty(k)` holds exactly when some entry has key k. |
| OrderedMaps.LookupEntry | gruntfile.js:54 | In an object, reading an entry's key yields that entry's value. |
| OrderedMaps.Lookup | gruntfile.js:54 | A defined read returns a value stored under that key. `LookupAbsent` gives the other direction: the read is undefined exactly when the key is absent. |
| OrderedMaps.LookupAbsent | gruntfile.js:54 | `obj[k]` is undefined exactly when k is not an own key, that is, when `hasOwnProperty(k)` fails. |
| OrderedMaps.IdentityOver | gruntfile.js:153-156 | The result has the same keys as its input, and each entry maps its key to itself. `Bundling.PlanMd5Input` applies it to the copy map. |
| OrderedMaps.AssignSpec | gruntfile.js:66 | Replacing in place or appending makes the assigned key read the new value. It leaves every other key's read and ownership unchanged. |
| RequireConfig.Md5PathMap | gruntfile.js:25-32 | Models `_getMD5PathMap`. `Md5PathMapSpec` and `Md5PathMapEntries` state its keys, values and key distinctness. |
| RequireConfig.Md5PathMapSpec | gruntfile.js:25-32 | The md5 input maps `"build/" + p` to p for every configured path p. It has distinct keys and no other keys. |
| RequireConfig.Md5PathMapEntries | gruntfile.js:29 | Every entry of the md5 input pairs `"build/" + p` with p itself. |
| RequireConfig.JsOnly | gruntfile.js:34-42 | Models `_requireJSModulesJSOnly`. `JsOnlyMembers` states which paths it keeps, `JsOnlyAppend` states their order, and `JsOnlySingle` states that each kept path is listed once per configured module. |
| RequireConfig.JsOnlyMembers | gruntfile.js:34-42 | A path is listed exactly when it is configured and ends in ".js". |
| RequireConfig.JsOnlySingle | gruntfile.js:37-38 | One configured module contributes its path exactly once when the path ends in ".js", and nothing otherwise. With `JsOnlyAppend` this fixes the multiplicity of every kept path. |
| RequireConfig.JsOnlyAppend | gruntfile.js:36-39 | The filter keeps configuration order, because filtering a concatenation concatenates the filtered parts. |
| RequireConfig.Recorded | gruntfile.js:58-62 | A truthy path ending in ".js" is recorded with exactly that one ".js" removed. Any other truthy path is recorded unchanged, and so is an undefined or empty path. The value is defined exactly when the looked-up path is. |
| RequireConfig.LookedUp | gruntfile.js:45-55 | The path a module is looked up to: its source path when the call is not bundled, and otherwise its entry in the rename map, undefined when the map lacks it or is absent. `ComponentListRecords` states the registry value this yields, `MissingFileKeepsModule` the missed-lookup case, and `UnbundledCallUsesSourcePaths` the `{ bundled: false }` case. |
| RequireConfig.FileOf | gruntfile.js:181 | The file a registry path names: the path plus ".js", or "undefined.js" for an undefined path. `StripJsAppendJs` makes stripping it give back a defined path. Bundling's `SourceOf` and the rewrite's hash lookup both use it. |
| RequireConfig.BuildComponentList | gruntfile.js:44-70 | One printed line per configured module, and at most one warning per module. |
| RequireConfig.ComponentListText | gruntfile.js:69 | The string `_getRequireConfigJSComponentList` returns: the lines in configuration order, separated by ",\n". `ComponentListFromEmpty` makes those lines the registry's serialization. |
| RequireConfig.ComponentListLines | gruntfile.js:63 | Line i names the i-th configured module and the path recorded for it. |
| RequireConfig.ComponentListRecords | gruntfile.js:49-66 | Every configured name ends up in the registry with its looked-up path, which is the rename map's entry when bundled and the source path otherwise. One ".js" is stripped, or the value is undefined when the lookup missed. |
| RequireConfig.ComponentListKeepsOthers | gruntfile.js:66 | Registry entries of names that are not configured keep their values. |
| RequireConfig.ComponentListWarnings | gruntfile.js:58-62 | A module is warned about exactly when its looked-up path is falsy. |
| RequireConfig.RegistryFromEmpty | gruntfile.js:48-67 | Starting from an empty registry, the registry is the configured modules in order, each with its recorded path. |
| RequireConfig.ComponentListFromEmpty | gruntfile.js:44-70 | Starting from an empty registry, the registry has exactly the configured names, in configuration order. The returned lines are that registry's serialization. |
| RequireConfig.MissingFileKeepsModule | gruntfile.js:53-63 | A module whose file the rename map lacks is not dropped. It is recorded as undefined, printed as "undefined" and warned about. |
| RequireConfig.UnbundledCallUsesSourcePaths | gruntfile.js:88 | `{ bundled: false }` sets neither `isBundled` nor `fileMap`, so it behaves as an explicit unbundled call. Every module keeps its own source path with ".js" stripped, whatever rename map exists. |
| Classifier.KindOf | gruntfile.js:258-260 | The two extension tests, ".js" first and ".hbs" second. `ClassifyScriptsKeys`, `ClassifyTemplates` and `ClassifyFileMap` state what each kind of record contributes. `TemplatePathIsScript` states that a template's final path tests as a script. |
| Classifier.TemplateScriptPath | gruntfile.js:261-264 | Models the template renaming. `TemplatePathSegments`, `TemplatePathIsScript`, `TemplatePathInjective` and `TemplatePathAvoidsScripts` state what it keeps, what it changes and that it loses no template. |
| Classifier.TemplatePathSegments | gruntfile.js:261-264 | A template's final path keeps every directory segment. Only the last segment changes, to "hbs-" + stem + ".js". |
| Classifier.TemplatePathIsScript | gruntfile.js:260-273 | A template's final path ends in ".js", does not end in ".hbs", and is classified as a script. |
| Classifier.TemplatePathInjective | gruntfile.js:263-268 | Two different templates never share a final path, so `newHBSFiles` loses no template. |
| Classifier.TemplatePathAvoidsScripts | gruntfile.js:266-267 | The "hbs-" prefix keeps a template's final path apart from any script whose file name does not itself start with "hbs-", including one with the same stem. |
| Classifier.LastSegmentKeepsHbs | gruntfile.js:263 | A ".hbs" path has a ".hbs" last segment, so the per-segment replace does fire. |
| Classifier.FileMapOf | gruntfile.js:255-273 | Models `fileMap` across the callback's loop. `ClassifyFileMapKeys` and `ClassifyFileMap` state its keys and values. |
| Classifier.ScriptsOf | gruntfile.js:255-271 | Models `newJSFiles`, the uglify map. `ClassifyScriptsKeys` and `ClassifyScriptsValues` state its keys and values. |
| Classifier.TemplatesOf | gruntfile.js:255-268 | Models `newHBSFiles`. `ClassifyTemplates` and `ClassifyTemplatesKeys` state its keys and values. |
| Classifier.ClassifyFileMapKeys | gruntfile.js:255-256 | The file map's keys are exactly the records' old paths. |
| Classifier.ClassifyFileMap | gruntfile.js:256-273 | The last record for an old path decides its file-map value. A script keeps its new path, a template gets its `hbs-…js` path, and any other file keeps its new path. |
| Classifier.FinalPathIsScript | gruntfile.js:258-273 | The final path of a script or template record is a ".js" path. |
| Classifier.ClassifyScriptsKeys | gruntfile.js:258-271 | The uglify map's keys are exactly the final paths of the script and template records. Other files are not minified. |
| Classifier.ClassifyScriptsValues | gruntfile.js:259-271 | Every uglify entry maps a ".js" path to itself. |
| Classifier.ClassifyTemplates | gruntfile.js:268 | The template map sends each template's final path back to its ".hbs" path. |
| Classifier.ClassifyTemplatesKeys | gruntfile.js:268 | The template map holds nothing but final paths of template records. |
| Bundling.PlanPages | gruntfile.js:122-149 | Models the page loop with its `break`. `PlanPagesSpecs`, `PlanPagesTargets`, `PlanPagesKeys` and `PlanPagesDistinct` state what it adds: one run and one copy target per page up to the first unknown page, with no duplicates. |
| Bundling.ConstructPageBundlingData | gruntfile.js:108-158 | Models `_constructPageBundlingData`. `PlanSpecs`, `PlanExcludes`, `PlanRenamed`, `PlanRenamedByModule` and `PlanMd5Input` state the resulting optimizer runs, copy map and md5 input. |
| Bundling.CoreSpec | gruntfile.js:112-119 | The core optimizer run: entry "appStartBuild", output over that module's pass-1 file, no excludes. `PlanSpecs` places it first among the runs. |
| Bundling.PageSpec | gruntfile.js:128-148 | The run for page i: its module as entry, output over that module's pass-1 file, and the seven always-loaded modules excluded. `PlanSpecs` and `PlanExcludes` state these fields for every planned page. |
| Bundling.BundleKeyInjective | gruntfile.js:127 | Different modules never share a copy target `build/bundled-<name>.js`. |
| Bundling.PlannedCount | gruntfile.js:122-125 | The number of planned pages is the length of the longest prefix of the page list whose names are all registry keys. |
| Bundling.PlanSpecs | gruntfile.js:111-149 | The optimizer runs are the core run, then one run per page in list order, stopping before the first unknown page. Run i+1 targets `page<i>` and writes over its module's pass-1 file. |
| Bundling.PlanExcludes | gruntfile.js:138-146 | Every page run excludes the seven modules the core always loads. |
| Bundling.PlanRenamed | gruntfile.js:111-127 | `_renamedBundledFiles` holds exactly the core's and the planned pages' copy targets. Each maps to its module's pass-1 path plus ".js". |
| Bundling.PlanRenamedByModule | gruntfile.js:111-127 | `_renamedBundledFiles` has distinct keys, which are exactly the copy targets of the planned modules. Each holds that module's pass-1 file. |
| Bundling.PlanTarget | gruntfile.js:127 | A module's copy target, when planned, holds that module's pass-1 file. |
| Bundling.PlanMd5Input | gruntfile.js:152-157 | The second md5 pass gets every copy target, each mapped to itself. |
| Bundling.PlanStopsAtFirstUnknown | gruntfile.js:122-125 | With pages [a, b, c] and b unknown, only a is planned, whatever c is. |
| Bundling.UniqueSourceTarget | gruntfile.js:169-173 | A pass-1 file that only one planned module has is held only by that module's copy target. |
| Bundling.UnplannedSource | gruntfile.js:169-173 | A file that is no planned module's pass-1 file is held by no copy target. |
| Rewrite.OldToNew | gruntfile.js:164-167 | Models `oldToNew`. `OldToNewKeys` and `OldToNewSpec` state its keys and values. |
| Rewrite.BundleHash | gruntfile.js:169-174 | Models `hash`. `BundleHashKeys`, `BundleHashSpec` and `BundleHashDefined` state its keys and values. |
| Rewrite.RewrittenPath | gruntfile.js:178-183 | A component whose `path + ".js"` is a bundle source with a defined pass-2 address gets that address without ".js". Any other component keeps its path. `RewriteSpec` states this for every component of a successful rewrite. |
| Rewrite.FinalComponentListText | gruntfile.js:187 | The text handed to the template: the final registry's lines, separated by ",\n". `FinalTextWithoutBundles` states that it is the pass-1 text when no bundle was copied from a component's file. |
| Rewrite.RewriteEntries | gruntfile.js:176-185 | Models the rewrite loop, with the TypeError at line 182 as an error result. `RewriteFails` states exactly when it fails, and `RewriteInPlace` and `RewriteSpec` state what it produces otherwise. |
| Rewrite.RecreateRequireConfig | gruntfile.js:161-189 | Models `_recreateRequireConfigFileForBundledFiles`. `NoTypeErrorWhenAllBundlesRenamed`, `BundledComponentRepointed` and `UnbundledComponentKept` state its result. |
| Rewrite.OldToNewSpec | gruntfile.js:164-167 | `oldToNew` maps an old path to the new path of the last record carrying it. |
| Rewrite.OldToNewKeys | gruntfile.js:164-167 | `oldToNew` has exactly the records' old paths as keys. |
| Rewrite.BundleHashKeys | gruntfile.js:169-174 | The hash has exactly the bundle sources as keys. |
| Rewrite.BundleHashSpec | gruntfile.js:169-174 | A bundle source maps to the pass-2 address of the last bundle copied from it, or to undefined when that bundle was not renamed. |
| Rewrite.BundleHashDefined | gruntfile.js:172-173 | When every copy target was renamed in pass 2, no source maps to undefined. |
| Rewrite.RewriteFails | gruntfile.js:181-182 | The rewrite throws exactly when some component's `path + ".js"` is a bundle source whose pass-2 address is undefined. |
| Rewrite.RewriteInPlace | gruntfile.js:176-185 | A successful rewrite transforms each component in place, in registry order. |
| Rewrite.RewriteSpec | gruntfile.js:176-185 | A successful rewrite keeps one entry per component, in the same order and with the same names. A component found in the hash gets the new address minus ".js". Every other component keeps its path. |
| Rewrite.NoTypeErrorWhenAllBundlesRenamed | gruntfile.js:182 | The rewrite cannot throw when every copy target appears among the pass-2 old paths. |
| Rewrite.BundledComponentRepointed | gruntfile.js:169-184 | A component whose file is the source of exactly one bundle is re-pointed at that bundle's pass-2 address, with ".js" stripped. |
| Rewrite.FinalTextWithoutBundles | gruntfile.js:176-187 | When no component's file is any bundle's source, a successful rewrite returns the registry unchanged, so the template gets the same lines as before. |
| Rewrite.UnbundledComponentKept | gruntfile.js:177-184 | A component whose file is no bundle's source keeps its entry. |
| Pipeline.ProdBuild | gruntfile.js:345-358 | The production build's path bookkeeping: classify the first renames, build the pass-1 registry, plan the bundles, then rewrite after the second renames. `FinalRegistryShape`, `BundledModuleRepointed` and `OtherModuleKept` state the end-to-end result. |
| Pipeline.Pass1Registry | gruntfile.js:280 | After the first md5 pass, the registry has one entry per configured module, in order, with distinct names. |
| Pipeline.FinalRegistryShape | gruntfile.js:176-187 | When every planned bundle was renamed, the rewrite succeeds and the final registry names the configured modules in order. |
| Pipeline.BundledModuleRepointed | gruntfile.js:111-183 | A planned module (the core, or a listed page before the first unknown one) whose pass-1 file no other planned module shares ends up at the new path of the last pass-2 record for its copy target, with ".js" stripped. |
| Pipeline.OtherModuleKept | gruntfile.js:176-185 | A module that shares its pass-1 file with no planned module keeps its pass-1 path. |

## Left out

- The `fs`/`vm` loading of `build-templates/file-paths.js` and `build-templates/bundling.js` (gruntfile.js:5-12) is I/O and is not modelled. The module list and the page list are inputs. `file-paths.js` and `bundling.js` are not part of this model.
- `_setBuildEnvironment` (gruntfile.js:76-90) copies environment constants into template data, which is not modelled. Only its `{ bundled: false }` call is modelled, as `RequireConfig.UnbundledCall`.
- The grunt task registrations and the order in which they run (gruntfile.js:326-358) are left out. `Pipeline.ProdBuild` composes the steps in production order instead.
- The md5 hashing, copy, uglify, RequireJS optimizer and template plugins are foreign code and are not modelled. Their effects are inputs: the rename records of each md5 pass.
- `console.warn` is modelled as the list of warned module names. The output stream is not modelled.
- `grunt.task.run("template:recreateRequireConfig")` and writing the template (gruntfile.js:187-188) are not modelled. The model stops at the joined component-list text (`Rewrite.FinalComponentListText`).
- `config.requirejs` keys `core` and `"page" + i` are modelled as the datatype `Bundling.Target`. The other contents of the grunt config object are not modelled.
- JavaScript enumerates integer-like keys (such as "12") ahead of other keys. The model keeps plain insertion order for every key.
- Keys inherited from `Object.prototype` (such as "constructor") read as defined values in JavaScript. The model reads every absent key as undefined.
- The globals `_componentNameToMD5Path` and `_renamedBundledFiles` persist across calls. The model passes them explicitly, and each production build starts both empty.
- Classifier.TemplatePathAvoidsScripts: stated only for scripts whose file name does not start with "hbs-". A script literally named `hbs-x.js` in the same directory would collide with template `x.hbs`.
- Pipeline.BundledModuleRepointed: stated only for a module whose pass-1 file no other planned module shares. Two planned modules share a file whenever `SourceOf` gives them the same file name. For example, this happens when they have the same pass-1 path, when both paths are undefined, when both are "", or when one path is the literal "undefined" and the other is undefined. In that case the later bundle's address wins for both (`Rewrite.BundleHashSpec`).
- Rewrite.BundledComponentRepointed: stated only for a component whose file is the source of exactly one bundle. `Rewrite.BundleHashSpec` covers the shared case.
