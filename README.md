# Shared-module policy and plugin selection of the JupyterLite application build

This project models two deterministic pieces of a JupyterLite-style application build, with
proofs about each:

- **The module-federation `shared` table.** `createShared` in `app/webpack.config.js` builds
  it for one application.
  - The build folds it across all applications with
    `Object.values(liteAppData).reduce((memo, data) => createShared(data, memo), {})`.
  - Alongside it, a small loop fills the `extensions` and `mimeExtensions` objects that the
    entry-point template iterates over.
- **The page bootstrap.** `app/index.template.js` is the generated entry point.
  - It splits the federated extension descriptors into fetch requests.
  - It filters each extension's plugins against the disabled list (`activePlugins`).
  - It assembles `mimeExtensions` and `pluginsToRegister`: locally bundled extensions come
    first, federated ones after.
  - It decides whether the application object is exposed on `window`.

The model has four modules:

- `JsValues` (`js_values.dfy`): optional fields, the scalar values a manifest field may hold,
  JavaScript truthiness, and the result of a `require` that may throw (`RequireFailed`).
- `SharedPolicy` (`shared_policy.dfy`): `createShared` and its fold. Each loop of
  `createShared` is a method proved equal to a declarative function.
  - A loop over the entries of a JavaScript object picks its keys in an arbitrary order, so
    each proof also shows that the visiting order does not matter.
  - The properties of the table are lemmas about those functions.
- `ExtensionMap` (`extension_map.dfy`): the loop that builds `extensions` and
  `mimeExtensions`.
  - An ordered JavaScript object is a `Dict`: its keys in insertion order, plus its values.
- `PluginSelection` (`plugin_selection.dfy`): `activePlugins`, the descriptor partition, the
  plugin-list assembly and the `exposeAppInBrowser` flag.

Modelling choices:

- `require('<pkg>/package.json')` is an input map `installed` from package name to manifest.
  A name missing from it makes `createShared` (or the extension loop) fail with
  `RequireFailed`.
- `require` of a bundled extension module is an input map `bundled` from specifier to module.
  A specifier missing from it is a `require` that throws, and the template catches that.
- The settled outcomes of `Promise.allSettled` are given as sequences, one outcome per
  request, in request order.
- `PageConfig.Extension.isDisabled` is a function parameter. The template's `disabled` array
  is a sequence of strings.
- The Handlebars `{{#each}}` blocks are loops over the keys of a `Dict`.
- A manifest field set to `false` still gets an entry in `extensions` or `mimeExtensions`,
  because only `undefined` is skipped. Its block then `require`s the package itself, exactly
  as for `true`. `PluginSelection.FalseFieldLoadsPackageRoot` states this.

## Model

| member | source | states |
|---|---|---|
| SharedPolicy.NormalizedIdempotent | app/webpack.config.js:116-119 | after the `bundled`→`import` rename no `bundled` key is left, a second rename changes nothing, and a config without `bundled` is unchanged (so a manifest config already renamed by an earlier application yields the same entry) |
| SharedPolicy.AddResolutions | app/webpack.config.js:82-84 | the loop over the resolutions, in any key order, leaves the input table with each resolution package replaced by exactly `{requiredVersion: <resolution>}` and every other entry untouched |
| SharedPolicy.AddExtensionPackages | app/webpack.config.js:87-93 | fails exactly when some extension package is neither in the table nor installed; otherwise adds each absent extension package at its installed version and leaves present ones unchanged |
| SharedPolicy.CustomSharingOverrides | app/webpack.config.js:105-122 | within one extension: a `false` sharedPackages config removes the package; a config object replaces the automatic entry, with `bundled` moved to `import`; any other dependency is contributed at its declared version exactly when it is not shared yet |
| SharedPolicy.AddDependencies | app/webpack.config.js:105-109 | the loop over a package's dependencies, in any key order, contributes each dependency not yet shared at its declared version, and nothing else |
| SharedPolicy.ApplyCustomSharing | app/webpack.config.js:112-122 | the loop over `sharedPackages`, in any key order, deletes each package configured `false`, sets each configured one to its config with `bundled` renamed to `import`, and keeps every other entry |
| SharedPolicy.ExtensionShare | app/webpack.config.js:100-123 | the two loops building `pkgShared` (dependencies, then custom configs with `delete`) compute the declarative contribution of the package, whatever the key order |
| SharedPolicy.CollectContributions | app/webpack.config.js:98-124 | the loop over the extension packages fails exactly when one of them is not installed, and otherwise collects each package's contribution in package order |
| SharedPolicy.MergeContribution | app/webpack.config.js:129-149 | the inner merge loop skips packages already shared, takes a package seen first, and replaces a kept config only when it has `import: false`, independent of key order |
| SharedPolicy.MergeExtraShared | app/webpack.config.js:127-150 | the outer merge loop over the contributions in package order computes the declarative fold `MergeAll` |
| SharedPolicy.WinnerIsFirstEnabled | app/webpack.config.js:141-148 | the config kept for a package is the first contribution whose `import` is not `false`, or the last one when all of them have `import: false` |
| SharedPolicy.MergeAllPicksWinner | app/webpack.config.js:127-150 | a package is in `mergedShare` iff it is not already shared and some extension contributes it, and then its config is the kept one among the contributions in order |
| SharedPolicy.FirstContributionWins | app/webpack.config.js:135-148 | across extensions the first contribution for a package is kept when it does not have `import: false` |
| SharedPolicy.MergeAllAvoidsShared | app/webpack.config.js:130-133 | no package already in the table comes out of the merge of extension contributions |
| SharedPolicy.UseInstalledVersions | app/webpack.config.js:157-161 | fails exactly when some `file:` version belongs to a package that is not installed; otherwise rewrites every `file:` version to the installed version and leaves every other entry unchanged |
| SharedPolicy.MarkSingletons | app/webpack.config.js:164-168 | every listed singleton that is in the table is marked `singleton: true`; no entry is added and none other changes |
| SharedPolicy.CreateShared | app/webpack.config.js:75-171 | the whole of `createShared`, with its `require` failures, computes the declarative table `SharedTable` |
| SharedPolicy.SharedTableEntries | app/webpack.config.js:75-171 | no key is deleted: the incoming table's keys, the resolutions and the extension packages are all in the result; each result entry is the merged entry with the `file:` rewrite and the singleton mark applied |
| SharedPolicy.BaseEntriesKept | app/webpack.config.js:127-152 | every entry in the table before the merge (the incoming table, the resolutions, the extension packages) keeps its config through `Object.assign(shared, mergedShare)` |
| SharedPolicy.ResolutionsWin | app/webpack.config.js:82-84 | a resolution package ends at exactly its resolved version (the installed version when it is a `file:` version), with no `import` and a singleton mark only if this application lists it, whatever the incoming table held |
| SharedPolicy.ExtensionPackageAtInstalledVersion | app/webpack.config.js:87-93 | an extension package absent from the incoming table and the resolutions ends shared at its installed version |
| SharedPolicy.ContributedEntry | app/webpack.config.js:98-152 | a package not shared before the merge is in the result iff some extension contributes it, and its entry is then the kept contribution with the post-passes applied |
| SharedPolicy.NoFileVersionLeft | app/webpack.config.js:157-161 | every entry whose version still starts with `file:` carries exactly its package's installed version |
| SharedPolicy.SingletonsMarked | app/webpack.config.js:164-168 | a listed singleton is in the result iff it was in the merged table, and if so it is marked `singleton: true` |
| SharedPolicy.FoldKeepsKeys | app/webpack.config.js:408-411 | folding `createShared` over the applications never drops a key that an earlier application shared |
| SharedPolicy.FoldLastResolutionWins | app/webpack.config.js:408-411 | in the folded table, a resolution of the last application replaces whatever earlier applications placed there, including their `singleton` flag |
| ExtensionMap.EntriesOfContents | app/webpack.config.js:199-209 | the object has no key twice, has a key exactly for each listed package whose field is not `undefined`, and holds that field with `true` turned into `''` |
| ExtensionMap.EntriesOfOrder | app/webpack.config.js:199-209 | the object's keys come in the order in which their packages first appear in the list |
| ExtensionMap.CollectExtensions | app/webpack.config.js:197-209 | the loop fails exactly when some listed package has no manifest with a `jupyterlab` section, and otherwise builds both objects, keys in insertion order |
| PluginSelection.IdPrefix | app/index.template.js:138 | `id.split(':')[0]` is a prefix of the id without `:`, followed in the id by `:` when it is shorter than the id |
| PluginSelection.PrefixBeforeColon | app/index.template.js:138 | the prefix of `<pkg>:<rest>` is `pkg` when `pkg` has no `:` |
| PluginSelection.KeepActiveSpec | app/index.template.js:134-143 | the yielded plugins form an order-preserving subsequence of the exported ones; a plugin is yielded iff it is exported and not dropped by `isDisabled`, by its id, or by its id prefix, and a kept plugin is yielded as many times as it is exported |
| PluginSelection.ExportShapes | app/index.template.js:109-117 | an ES module yields the plugins of its `default` export, and a single exported plugin is filtered like a one-element list |
| PluginSelection.PackageNameDisablesItsPlugins | app/index.template.js:135-141 | disabling a package name drops every plugin `<name>:<rest>` of any module |
| PluginSelection.PartitionOne | app/index.template.js:78-88 | one descriptor adds its name exactly when its `extension` or `mimeExtension` is truthy, and one request to each list whose field is truthy |
| PluginSelection.PartitionDescriptors | app/index.template.js:77-89 | the `forEach` over the descriptors computes the declarative name set and the three request lists, in descriptor order |
| PluginSelection.FederatedNamesMembers | app/index.template.js:75-85 | a name is a federated extension name iff some descriptor with that name has a truthy `extension` or `mimeExtension` |
| PluginSelection.RequestsAppend | app/index.template.js:77-89 | the requests of concatenated descriptor lists are the concatenated requests, so requests keep descriptor order |
| PluginSelection.StyleOnlyAddsNoName | app/index.template.js:77-89 | a name whose descriptors have only a `style` is not a federated extension name |
| PluginSelection.FalseFieldLoadsPackageRoot | app/webpack.config.js:203-208 | a manifest field `false` still gets an entry, and its block `require`s the bare package name, as `true` does |
| PluginSelection.PushBundledEntry | app/index.template.js:186-195 | one rendered block appends the active plugins of the module it loads, and the block loads the module required for its key unless the package is a federated extension or its `require` throws |
| PluginSelection.PushBundled | app/index.template.js:185-196 | the rendered blocks, in key order, append the declarative list `BundledPlugins` |
| PluginSelection.PluginsOfAppend | app/index.template.js:189-191 | the plugins handed over for a list of modules are concatenated module by module |
| PluginSelection.PluginsOfMembers | app/index.template.js:134-143 | a plugin is handed over for a list of modules iff one of them exports it and it is not dropped |
| PluginSelection.BundledModulesMembers | app/index.template.js:185-196 | a module is loaded by the blocks iff it is the one required for a listed package that is not a federated extension and whose `require` succeeds |
| PluginSelection.BundledModulesAppend | app/index.template.js:185-196 | the blocks load their modules block by block, in key order |
| PluginSelection.SkippedPackageLoadsNothing | app/index.template.js:186-195 | a federated-extension package, or one whose `require` throws, loads no module and does not stop the blocks after it |
| PluginSelection.SkippedPackageAddsNothing | app/index.template.js:186-195 | a federated-extension package, or one whose `require` throws, adds nothing and does not stop the blocks after it |
| PluginSelection.PushFederated | app/index.template.js:199-208 | the loop over settled outcomes appends the declarative list `FederatedPlugins` |
| PluginSelection.FulfilledModulesAppend | app/index.template.js:200-207 | the modules of the settled outcomes are taken outcome by outcome, in order |
| PluginSelection.FulfilledModulesMembers | app/index.template.js:200-207 | a module is loaded iff some outcome is fulfilled with it |
| PluginSelection.RejectedOutcomeLoadsNothing | app/index.template.js:200-207 | a rejected fetch loads no module and leaves the later outcomes' modules in place |
| PluginSelection.RejectedOutcomeAddsNothing | app/index.template.js:200-207 | a rejected fetch adds nothing and leaves the plugins of the later outcomes in place |
| PluginSelection.ExposeAppInBrowser | app/index.template.js:257-258 | the flag is on iff the option is four characters that lower-case to `true`; a missing option turns it off |
| PluginSelection.ExposeIgnoresCase | app/index.template.js:257-258 | any two options that agree up to the case of their ASCII letters switch the flag alike |
| PluginSelection.ExposeAcceptsAnyCase | app/index.template.js:257-258 | `true`, `TRUE` and `True` switch the flag on; `""`, `1` and `yes` do not |
| PluginSelection.ListedPackageContributes | app/webpack.config.js:199-209 | end to end with the template's blocks (app/index.template.js:185-196): a listed package with a defined field that is not a federated extension hands over every active plugin of the module its block requires, when the `require` succeeds |
| PluginSelection.AssemblePlugins | app/index.template.js:184-208 | one plugin list is the bundled blocks' plugins followed by the fulfilled federated modules' plugins |
| PluginSelection.Bootstrap | app/index.template.js:184-234 | `mimeExtensions` and `pluginsToRegister` are each the bundled plugins followed by the federated ones, with federated names taken from the descriptor partition; the expose flag is the option's |

## Left out

- File-system work is not modelled: the build directory, templates, written files and the build log. So are Handlebars compilation and HTML escaping, the `list_plugins` helper, `Build.ensureAssets`, and the webpack, ModuleFederation and HtmlWebpackPlugin configuration objects. These are I/O and foreign library calls.
- `createModule`, `window._JUPYTERLAB`, the concurrency of `Promise.allSettled`, console logging, the style promises (only their errors are logged), `NotebookApp` construction, `app.name`, `registerPluginModules` and `app.start()` are not modelled. They are runtime plumbing; only the settled outcomes remain, as data.
- The reduce that builds `liteAppData` (`app/webpack.config.js:22-25`) is not modelled. The fold takes the applications as an ordered sequence instead.
- Aliasing of config objects is not modelled: entries are values. A manifest's `sharedPackages` config object is shared by reference with the table, and the table's entries are updated in place. This is unobservable in the result for three reasons:
  - the rename of `bundled` is idempotent (`NormalizedIdempotent`);
  - a package already in the table is never replaced by a contribution;
  - each config object sits under one package key only.
- The table is a `map`, so the key order of the JavaScript object is not modelled. No value of the table depends on it. The order of `extensions` and `mimeExtensions` is modelled.
- JavaScript's special key order for integer-like keys is not modelled. Package names are not integers.
- `shared[pkg]` on a key inherited from `Object.prototype` (such as `constructor`) is truthy in JavaScript. The model treats every package name as an own key.
- Manifest values outside `undefined`, booleans and strings are not modelled. Neither are a `null` `jupyterlab` section or a `sharedPackages` value that is neither `false` nor an object, which throw or behave oddly in JavaScript. The same goes for config fields other than `requiredVersion`, `import`, `singleton` and `bundled`.
- The application's own package.json is assumed to have `resolutions`, `jupyterlab.extensions` and `jupyterlab.singletonPackages` (`AppPackage`). In JavaScript an absent one throws a TypeError in `app/webpack.config.js`: reading `extensions` of a missing `jupyterlab` (line 78), `Object.entries(undefined)` (line 81), or iterating `undefined` (lines 87 and 164). The model has no such failure.
- A module whose `default` export is missing, or a plugin without an `id`, throws inside `activePlugins` in JavaScript. The model's modules always export plugins with ids.
- SharedPolicy.CreateShared: `RequireFailed` does not carry the name of the missing package. At lines 87-93 and 99-104 JavaScript reports the first missing package in the order of `jupyterlab.extensions`, which the model keeps as a sequence but does not report. At lines 157-161 the name depends on the table's key order, which the model does not keep.
- SharedPolicy.CreateShared: when `createShared` throws, the in-place changes it made to the incoming table before the throw are not modelled. The throw ends the whole build.
- PluginSelection.ExposeAppInBrowser: `toLowerCase` is modelled on ASCII letters only. Other characters are compared unchanged.
- PluginSelection.Bootstrap: the style requests are computed (`PartitionDescriptors`) but their outcomes are not. Their outcomes only feed a log.
