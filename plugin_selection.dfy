/**
 * The page bootstrap generated from the entry-point template: it splits the federated
 * extension descriptors into fetch requests, filters each extension's plugins against the
 * disabled list, and assembles the plugin lists handed to the application, bundled
 * extensions first and federated ones after.
 *
 * The asynchronous fetches are represented by their settled outcomes, one per request,
 * in request order; the page configuration's `isDisabled` is a parameter.
 */
module PluginSelection {
  import opened JsValues
  import opened SharedPolicy
  import opened ExtensionMap

  /** A plugin object; only its id is inspected, the other fields ride along. */
  datatype Plugin = Plugin(id: string, providesToken: Option<string>, autoStart: bool)

  /** What a module exports: an array of plugins, or a single plugin. */
  datatype Exports = PluginList(plugins: seq<Plugin>) | SinglePlugin(plugin: Plugin)

  /** A loaded module: an ES module (it has an own `__esModule` property) whose
      `default` export holds the plugins, or a CommonJS module that is its export. */
  datatype LoadedModule = EsModule(defaultExport: Exports) | CommonJs(exports: Exports)

  /** The disabled list rendered into the page, and `PageConfig.Extension.isDisabled`. */
  datatype DisabledConfig = DisabledConfig(disabled: seq<string>, isDisabled: string -> bool)

  // ---------------------------------------------------------------------------
  // `activePlugins` (lines 107-144).

  /** Lines 109-117: unwrap `default` of an ES module and wrap a single export in a list. */
  function ExportedPlugins(m: LoadedModule): seq<Plugin> {
    var exports := if m.EsModule? then m.defaultExport else m.exports;
    match exports
    case PluginList(ps) => ps
    case SinglePlugin(p) => [p]
  }

  /** `id.split(':')[0]`: the text of `id` before its first `:`, or all of it. */
  function IdPrefix(id: string): (r: string)
    ensures |r| <= |id| && r == id[..|r|]
    ensures ':' !in r
    ensures |r| < |id| ==> id[|r|] == ':'
  {
    if id == [] || id[0] == ':' then "" else [id[0]] + IdPrefix(id[1..])
  }

  /** The condition of lines 135-139. */
  predicate Dropped(id: string, config: DisabledConfig) {
    config.isDisabled(id) || id in config.disabled || IdPrefix(id) in config.disabled
  }

  /** `a` is `b` with some elements left out, the rest in their order. */
  predicate IsSubsequence<T(==)>(a: seq<T>, b: seq<T>)
    decreases |b|
  {
    if a == [] then true
    else if b == [] then false
    else (a[0] == b[0] && IsSubsequence(a[1..], b[1..])) || IsSubsequence(a, b[1..])
  }

  /** Lines 134-143: the plugins that are not dropped, in their order. */
  function KeepActive(plugins: seq<Plugin>, config: DisabledConfig): seq<Plugin>
    decreases |plugins|
  {
    if plugins == [] then []
    else
      var rest := KeepActive(plugins[1..], config);
      if Dropped(plugins[0].id, config) then rest else [plugins[0]] + rest
  }

  /** The filter keeps exactly the plugins that are not dropped, in their order, each as
      many times as it is exported. */
  lemma {:induction false} KeepActiveSpec(plugins: seq<Plugin>, config: DisabledConfig)
    ensures IsSubsequence(KeepActive(plugins, config), plugins)
    ensures forall p :: multiset(KeepActive(plugins, config))[p] ==
                        (if Dropped(p.id, config) then 0 else multiset(plugins)[p])
    ensures forall p <- KeepActive(plugins, config) :: p in plugins && !Dropped(p.id, config)
    ensures forall p <- plugins :: !Dropped(p.id, config) ==> p in KeepActive(plugins, config)
    decreases |plugins|
  {
    if plugins != [] {
      KeepActiveSpec(plugins[1..], config);
      var rest := KeepActive(plugins[1..], config);
      assert plugins == [plugins[0]] + plugins[1..];
      if !Dropped(plugins[0].id, config) {
        assert ([plugins[0]] + rest)[1..] == rest;
      }
      forall p | p in plugins && !Dropped(p.id, config)
        ensures p in KeepActive(plugins, config)
      {
        if p != plugins[0] {
          assert p in plugins[1..];
        }
      }
    }
  }

  /** What `activePlugins(extension)` yields. */
  function ActivePlugins(m: LoadedModule, config: DisabledConfig): seq<Plugin> {
    KeepActive(ExportedPlugins(m), config)
  }

  /** The plugins of an ES module are those of its `default` export, and a single exported
      plugin is filtered like a one-element list. */
  lemma ExportShapes(e: Exports, p: Plugin, config: DisabledConfig)
    ensures ActivePlugins(EsModule(e), config) == ActivePlugins(CommonJs(e), config)
    ensures ActivePlugins(CommonJs(SinglePlugin(p)), config) == ActivePlugins(CommonJs(PluginList([p])), config)
    ensures ActivePlugins(CommonJs(SinglePlugin(p)), config) == if Dropped(p.id, config) then [] else [p]
  {
    assert [p][1..] == [];
    assert KeepActive([p][1..], config) == [];
    assert ExportedPlugins(CommonJs(SinglePlugin(p))) == [p];
  }

  /** Disabling a package name (a name without `:`) drops every plugin `<name>:<rest>`. */
  lemma PackageNameDisablesItsPlugins(m: LoadedModule, config: DisabledConfig, pkg: string, rest: string)
    requires pkg in config.disabled && ':' !in pkg
    ensures IdPrefix(pkg + ":" + rest) == pkg
    ensures forall p <- ActivePlugins(m, config) :: p.id != pkg + ":" + rest
  {
    PrefixBeforeColon(pkg, rest);
    KeepActiveSpec(ExportedPlugins(m), config);
  }

  lemma {:induction false} PrefixBeforeColon(pkg: string, rest: string)
    requires ':' !in pkg
    ensures IdPrefix(pkg + ":" + rest) == pkg
    decreases |pkg|
  {
    if pkg != [] {
      assert (pkg + ":" + rest)[1..] == pkg[1..] + ":" + rest;
      PrefixBeforeColon(pkg[1..], rest);
    }
  }

  // ---------------------------------------------------------------------------
  // Lines 77-89: the federated extension descriptors.

  /** One element of the page's `federated_extensions` option. */
  datatype Descriptor = Descriptor(name: string, extension: Scalar, mimeExtension: Scalar, style: Scalar)

  /** `createModule(scope, exposed)` */
  datatype Request = Request(scope: string, exposed: Scalar)

  datatype Part = MainPart | MimePart | StylePart

  function PartOf(d: Descriptor, part: Part): Scalar {
    match part
    case MainPart => d.extension
    case MimePart => d.mimeExtension
    case StylePart => d.style
  }

  /** The names added to `federatedExtensionNames`. */
  function FederatedNames(ds: seq<Descriptor>): set<string>
    decreases |ds|
  {
    if ds == [] then {}
    else FederatedNames(ds[..|ds| - 1]) + NameOf(ds[|ds| - 1])
  }

  /** The name one descriptor adds: its own, when `extension` or `mimeExtension` is truthy. */
  function NameOf(d: Descriptor): set<string> {
    if Truthy(d.extension) || Truthy(d.mimeExtension) then {d.name} else {}
  }

  /** The requests pushed for `part`, in descriptor order. */
  function Requests(ds: seq<Descriptor>, part: Part): seq<Request>
    decreases |ds|
  {
    if ds == [] then []
    else Requests(ds[..|ds| - 1], part) + RequestOf(ds[|ds| - 1], part)
  }

  /** The request one descriptor gives for `part`: one exactly when that field is truthy. */
  function RequestOf(d: Descriptor, part: Part): seq<Request> {
    if Truthy(PartOf(d, part)) then [Request(d.name, PartOf(d, part))] else []
  }

  /** The body of the `forEach` of lines 77-89, for the descriptor `data`. */
  method PartitionOne(names: set<string>, mainRequests: seq<Request>, mimeRequests: seq<Request>,
                      styleRequests: seq<Request>, data: Descriptor)
    returns (names': set<string>, mainRequests': seq<Request>, mimeRequests': seq<Request>, styleRequests': seq<Request>)
    ensures names' == names + NameOf(data)
    ensures mainRequests' == mainRequests + RequestOf(data, MainPart)
    ensures mimeRequests' == mimeRequests + RequestOf(data, MimePart)
    ensures styleRequests' == styleRequests + RequestOf(data, StylePart)
  {
    names', mainRequests', mimeRequests', styleRequests' := names, mainRequests, mimeRequests, styleRequests;
    if Truthy(data.extension) {
      names' := names' + {data.name};
      mainRequests' := mainRequests' + [Request(data.name, data.extension)];
    }
    if Truthy(data.mimeExtension) {
      names' := names' + {data.name};
      mimeRequests' := mimeRequests' + [Request(data.name, data.mimeExtension)];
    }
    if Truthy(data.style) {
      styleRequests' := styleRequests' + [Request(data.name, data.style)];
    }
  }

  /** The `forEach` of lines 77-89 over the federated extension descriptors. */
  method PartitionDescriptors(ds: seq<Descriptor>)
    returns (names: set<string>, mainRequests: seq<Request>, mimeRequests: seq<Request>, styleRequests: seq<Request>)
    ensures names == FederatedNames(ds)
    ensures mainRequests == Requests(ds, MainPart)
    ensures mimeRequests == Requests(ds, MimePart)
    ensures styleRequests == Requests(ds, StylePart)
  {
    names, mainRequests, mimeRequests, styleRequests := {}, [], [], [];
    for i := 0 to |ds|
      invariant names == FederatedNames(ds[..i])
      invariant mainRequests == Requests(ds[..i], MainPart)
      invariant mimeRequests == Requests(ds[..i], MimePart)
      invariant styleRequests == Requests(ds[..i], StylePart)
    {
      assert ds[..i + 1][..i] == ds[..i];
      names, mainRequests, mimeRequests, styleRequests :=
        PartitionOne(names, mainRequests, mimeRequests, styleRequests, ds[i]);
    }
    assert ds[..|ds|] == ds;
  }

  /** A name is a federated extension name exactly when some descriptor with that name
      has a truthy `extension` or `mimeExtension`. */
  lemma {:induction false} FederatedNamesMembers(ds: seq<Descriptor>)
    ensures forall n :: n in FederatedNames(ds) <==>
      exists d <- ds :: d.name == n && (Truthy(d.extension) || Truthy(d.mimeExtension))
    decreases |ds|
  {
    if ds != [] {
      var init := ds[..|ds| - 1];
      FederatedNamesMembers(init);
      assert ds == init + [ds[|ds| - 1]];
    }
  }

  /** Requests keep descriptor order: the requests of a concatenation are the
      concatenation of the requests. */
  lemma {:induction false} RequestsAppend(a: seq<Descriptor>, b: seq<Descriptor>, part: Part)
    ensures Requests(a + b, part) == Requests(a, part) + Requests(b, part)
    decreases |b|
  {
    if b == [] {
      assert a + b == a;
    } else {
      var b' := b[..|b| - 1];
      assert (a + b)[..|a + b| - 1] == a + b';
      assert (a + b)[|a + b| - 1] == b[|b| - 1];
      RequestsAppend(a, b', part);
    }
  }


  /** A descriptor with only a `style` adds no name. */
  lemma StyleOnlyAddsNoName(ds: seq<Descriptor>, n: string)
    requires forall d <- ds :: d.name == n ==> !Truthy(d.extension) && !Truthy(d.mimeExtension)
    ensures n !in FederatedNames(ds)
  {
    FederatedNamesMembers(ds);
  }

  // ---------------------------------------------------------------------------
  // Lines 184-234: the plugin lists.

  /** A settled promise of `Promise.allSettled`. */
  datatype Outcome = Fulfilled(loaded: LoadedModule) | Rejected

  /** The specifier `'{{@key}}{{#if this}}/{{this}}{{/if}}'` that a bundled extension is
      required by. */
  function RequirePath(key: string, v: Scalar): string {
    if Truthy(v) then key + "/" + Rendered(v) else key
  }

  /** How Handlebars renders a truthy `{{this}}`. */
  function Rendered(v: Scalar): string {
    match v
    case Str(s) => s
    case Bool(b) => "true"
    case Undefined => ""
  }

  /** `values[k]`: `undefined` for a missing key. */
  function ValueAt(values: map<string, Scalar>, k: string): Scalar {
    if k in values then values[k] else Undefined
  }

  /** A manifest field set to `false` still yields an entry (only `undefined` is skipped),
      and its block `require`s the package itself, as for `true`. */
  lemma FalseFieldLoadsPackageRoot(names: seq<string>, installed: Installed, f: Field, k: string)
    requires LabManifests(names, installed) && k in names
    requires FieldOf(installed[k].jupyterlab.value, f) == Bool(false)
    ensures k in EntriesOf(names, installed, f).values
    ensures RequirePath(k, EntriesOf(names, installed, f).values[k]) == k
    ensures RequirePath(k, EntryValue(Bool(true))) == k
  {
    EntriesOfContents(names, installed, f);
  }

  /** The modules that one `{{#each}}` block of lines 185-196 or 211-222 loads, in key
      order: a package that is also a federated extension is skipped, and so is one whose
      `require` throws (its specifier is not in `bundled`). */
  function BundledModules(keys: seq<string>, values: map<string, Scalar>, federated: set<string>,
                          bundled: map<string, LoadedModule>): seq<LoadedModule>
    decreases |keys|
  {
    if keys == [] then []
    else
      BundledModules(keys[..|keys| - 1], values, federated, bundled) + BundledModule(keys[|keys| - 1], values, federated, bundled)
  }

  /** What the block for package `k` loads. */
  function BundledModule(k: string, values: map<string, Scalar>, federated: set<string>,
                         bundled: map<string, LoadedModule>): seq<LoadedModule> {
    var path := RequirePath(k, ValueAt(values, k));
    if k !in federated && path in bundled then [bundled[path]] else []
  }

  /** The modules of the fulfilled outcomes, in order (lines 200-207 or 226-233). */
  function FulfilledModules(outcomes: seq<Outcome>): seq<LoadedModule>
    decreases |outcomes|
  {
    if outcomes == [] then []
    else
      FulfilledModules(outcomes[..|outcomes| - 1]) + ModuleOf(outcomes[|outcomes| - 1])
  }

  function ModuleOf(o: Outcome): seq<LoadedModule> {
    match o
    case Fulfilled(m) => [m]
    case Rejected => []
  }

  /** The active plugins of each module in turn. */
  function PluginsOf(mods: seq<LoadedModule>, config: DisabledConfig): seq<Plugin>
    decreases |mods|
  {
    if mods == [] then []
    else PluginsOf(mods[..|mods| - 1], config) + ActivePlugins(mods[|mods| - 1], config)
  }

  /** The plugins that one `{{#each}}` block pushes. */
  function BundledPlugins(keys: seq<string>, values: map<string, Scalar>, federated: set<string>,
                          bundled: map<string, LoadedModule>, config: DisabledConfig): seq<Plugin>
  {
    PluginsOf(BundledModules(keys, values, federated, bundled), config)
  }

  /** The plugins that the loop over settled outcomes pushes. */
  function FederatedPlugins(outcomes: seq<Outcome>, config: DisabledConfig): seq<Plugin> {
    PluginsOf(FulfilledModules(outcomes), config)
  }

  lemma AppendAssociates(a: seq<Plugin>, b: seq<Plugin>, c: seq<Plugin>)
    ensures (a + b) + c == a + (b + c)
  {
  }

  lemma PluginsOfOne(m: LoadedModule, config: DisabledConfig)
    ensures PluginsOf([m], config) == ActivePlugins(m, config)
  {
    assert [m][..0] == [];
  }

  lemma PluginsOfSnoc(mods: seq<LoadedModule>, m: LoadedModule, config: DisabledConfig)
    ensures PluginsOf(mods + [m], config) == PluginsOf(mods, config) + ActivePlugins(m, config)
  {
    assert (mods + [m])[..|mods|] == mods;
  }

  /** One rendered block of lines 186-195 (or 212-221), for the package `key`. */
  method PushBundledEntry(list: seq<Plugin>, key: string, values: map<string, Scalar>, federated: set<string>,
                          bundled: map<string, LoadedModule>, config: DisabledConfig) returns (r: seq<Plugin>)
    ensures r == list + PluginsOf(BundledModule(key, values, federated, bundled), config)
  {
    ghost var own := BundledModule(key, values, federated, bundled);
    r := list;
    if key !in federated {
      var path := RequirePath(key, ValueAt(values, key));
      if path in bundled {
        var ext := bundled[path];
        assert own == [ext];
        PluginsOfOne(ext, config);
        r := r + ActivePlugins(ext, config);
        return;
      }
    }
    assert own == [];
    assert list + PluginsOf(own, config) == list;
  }

  /** All the rendered blocks of one `{{#each}}` (lines 185-196 or 211-222), in key order. */
  method PushBundled(list: seq<Plugin>, entries: Dict, federated: set<string>,
                     bundled: map<string, LoadedModule>, config: DisabledConfig) returns (r: seq<Plugin>)
    ensures r == list + BundledPlugins(entries.keys, entries.values, federated, bundled, config)
  {
    var keys, values := entries.keys, entries.values;
    r := list;
    ghost var loaded: seq<LoadedModule> := [];
    for i := 0 to |keys|
      invariant loaded == BundledModules(keys[..i], values, federated, bundled)
      invariant r == list + PluginsOf(loaded, config)
    {
      assert keys[..i + 1][..i] == keys[..i];
      ghost var own := BundledModule(keys[i], values, federated, bundled);
      PluginsOfAppend(loaded, own, config);
      AppendAssociates(list, PluginsOf(loaded, config), PluginsOf(own, config));
      r := PushBundledEntry(r, keys[i], values, federated, bundled, config);
      loaded := loaded + own;
    }
    assert keys[..|keys|] == keys;
  }

  /** The `forEach` over settled outcomes of lines 200-208 (or 226-234). */
  method PushFederated(list: seq<Plugin>, outcomes: seq<Outcome>, config: DisabledConfig) returns (r: seq<Plugin>)
    ensures r == list + FederatedPlugins(outcomes, config)
  {
    r := list;
    ghost var loaded: seq<LoadedModule> := [];
    for i := 0 to |outcomes|
      invariant loaded == FulfilledModules(outcomes[..i])
      invariant r == list + PluginsOf(loaded, config)
    {
      assert outcomes[..i + 1][..i] == outcomes[..i];
      match outcomes[i] {
        case Fulfilled(ext) =>
          PluginsOfSnoc(loaded, ext, config);
          AppendAssociates(list, PluginsOf(loaded, config), ActivePlugins(ext, config));
          r := r + ActivePlugins(ext, config);
          loaded := loaded + [ext];
        case Rejected =>
      }
    }
    assert outcomes[..|outcomes|] == outcomes;
  }

  /** The plugins of a list of modules are concatenated module by module. */
  lemma {:induction false} PluginsOfAppend(a: seq<LoadedModule>, b: seq<LoadedModule>, config: DisabledConfig)
    ensures PluginsOf(a + b, config) == PluginsOf(a, config) + PluginsOf(b, config)
    decreases |b|
  {
    if b == [] {
      assert a + b == a;
    } else {
      var b' := b[..|b| - 1];
      assert (a + b)[..|a + b| - 1] == a + b';
      assert (a + b)[|a + b| - 1] == b[|b| - 1];
      PluginsOfAppend(a, b', config);
    }
  }

  /** The plugins handed over for a list of modules are exactly the active plugins that
      these modules export. */
  lemma {:induction false} PluginsOfMembers(mods: seq<LoadedModule>, config: DisabledConfig)
    ensures forall p <- PluginsOf(mods, config) ::
      !Dropped(p.id, config) && exists m <- mods :: p in ExportedPlugins(m)
    ensures forall m, p | m in mods && p in ExportedPlugins(m) && !Dropped(p.id, config) ::
      p in PluginsOf(mods, config)
    decreases |mods|
  {
    if mods != [] {
      var init := mods[..|mods| - 1];
      var last := mods[|mods| - 1];
      assert mods == init + [last];
      PluginsOfMembers(init, config);
      KeepActiveSpec(ExportedPlugins(last), config);
      forall p <- PluginsOf(mods, config)
        ensures !Dropped(p.id, config) && exists m <- mods :: p in ExportedPlugins(m)
      {
        if p in PluginsOf(init, config) {
          var m :| m in init && p in ExportedPlugins(m);
          assert m in mods;
        } else {
          assert p in ActivePlugins(last, config);
          assert last in mods;
        }
      }
      forall m, p | m in mods && p in ExportedPlugins(m) && !Dropped(p.id, config)
        ensures p in PluginsOf(mods, config)
      {
        if m != last {
          assert m in init;
        }
      }
    }
  }

  /** A block loads a module exactly when it is the module required for a listed package
      that is not a federated extension and whose `require` succeeds. */
  lemma {:induction false} BundledModulesMembers(keys: seq<string>, values: map<string, Scalar>,
                                                 federated: set<string>, bundled: map<string, LoadedModule>)
    ensures forall m <- BundledModules(keys, values, federated, bundled) ::
      exists k <- keys :: k !in federated && RequirePath(k, ValueAt(values, k)) in bundled &&
        m == bundled[RequirePath(k, ValueAt(values, k))]
    ensures forall k <- keys :: k !in federated && RequirePath(k, ValueAt(values, k)) in bundled ==>
      bundled[RequirePath(k, ValueAt(values, k))] in BundledModules(keys, values, federated, bundled)
    decreases |keys|
  {
    if keys != [] {
      var init := keys[..|keys| - 1];
      var k := keys[|keys| - 1];
      assert keys == init + [k];
      BundledModulesMembers(init, values, federated, bundled);
      var own := BundledModule(k, values, federated, bundled);
      forall m <- BundledModules(keys, values, federated, bundled)
        ensures (exists k <- keys :: k !in federated && RequirePath(k, ValueAt(values, k)) in bundled &&
                   m == bundled[RequirePath(k, ValueAt(values, k))])
      {
        if m in BundledModules(init, values, federated, bundled) {
          var k' :| k' in init && k' !in federated && RequirePath(k', ValueAt(values, k')) in bundled &&
            m == bundled[RequirePath(k', ValueAt(values, k'))];
          assert k' in keys;
        } else {
          assert m in own;
          assert k in keys;
        }
      }
      forall k' <- keys | k' !in federated && RequirePath(k', ValueAt(values, k')) in bundled
        ensures bundled[RequirePath(k', ValueAt(values, k'))] in BundledModules(keys, values, federated, bundled)
      {
        if k' != k {
          assert k' in init;
        }
      }
    }
  }

  /** Loading is done block by block. */
  lemma {:induction false} BundledModulesAppend(a: seq<string>, b: seq<string>, values: map<string, Scalar>,
                                                federated: set<string>, bundled: map<string, LoadedModule>)
    ensures BundledModules(a + b, values, federated, bundled) ==
      BundledModules(a, values, federated, bundled) + BundledModules(b, values, federated, bundled)
    decreases |b|
  {
    if b == [] {
      assert a + b == a;
    } else {
      var b' := b[..|b| - 1];
      assert (a + b)[..|a + b| - 1] == a + b';
      assert (a + b)[|a + b| - 1] == b[|b| - 1];
      BundledModulesAppend(a, b', values, federated, bundled);
    }
  }

  /** A bundled package that is a federated extension, or whose `require` throws, loads
      nothing and does not stop the blocks after it. */
  lemma SkippedPackageLoadsNothing(a: seq<string>, k: string, b: seq<string>, values: map<string, Scalar>,
                                   federated: set<string>, bundled: map<string, LoadedModule>)
    requires k in federated || RequirePath(k, ValueAt(values, k)) !in bundled
    ensures BundledModules(a + [k] + b, values, federated, bundled) ==
      BundledModules(a, values, federated, bundled) + BundledModules(b, values, federated, bundled)
  {
    BundledModulesAppend(a, [k], values, federated, bundled);
    BundledModulesOne(k, values, federated, bundled);
    assert BundledModules(a + [k], values, federated, bundled) == BundledModules(a, values, federated, bundled);
    BundledModulesAppend(a + [k], b, values, federated, bundled);
  }

  lemma BundledModulesOne(k: string, values: map<string, Scalar>, federated: set<string>, bundled: map<string, LoadedModule>)
    ensures BundledModules([k], values, federated, bundled) == BundledModule(k, values, federated, bundled)
  {
    assert [k][..0] == [];
  }

  /** Hence such a package adds no plugins and leaves those of the later blocks in place. */
  lemma SkippedPackageAddsNothing(a: seq<string>, k: string, b: seq<string>, values: map<string, Scalar>,
                                  federated: set<string>, bundled: map<string, LoadedModule>, config: DisabledConfig)
    requires k in federated || RequirePath(k, ValueAt(values, k)) !in bundled
    ensures BundledPlugins(a + [k] + b, values, federated, bundled, config) ==
      BundledPlugins(a, values, federated, bundled, config) + BundledPlugins(b, values, federated, bundled, config)
  {
    SkippedPackageLoadsNothing(a, k, b, values, federated, bundled);
    PluginsOfAppend(BundledModules(a, values, federated, bundled), BundledModules(b, values, federated, bundled), config);
  }

  /** The modules of concatenated outcome lists are concatenated. */
  lemma {:induction false} FulfilledModulesAppend(a: seq<Outcome>, b: seq<Outcome>)
    ensures FulfilledModules(a + b) == FulfilledModules(a) + FulfilledModules(b)
    decreases |b|
  {
    if b == [] {
      assert a + b == a;
    } else {
      var b' := b[..|b| - 1];
      assert (a + b)[..|a + b| - 1] == a + b';
      assert (a + b)[|a + b| - 1] == b[|b| - 1];
      FulfilledModulesAppend(a, b');
    }
  }

  /** A settled outcome yields its module exactly when it is fulfilled. */
  lemma {:induction false} FulfilledModulesMembers(outcomes: seq<Outcome>)
    ensures forall m :: m in FulfilledModules(outcomes) <==> Fulfilled(m) in outcomes
    decreases |outcomes|
  {
    if outcomes != [] {
      var init := outcomes[..|outcomes| - 1];
      FulfilledModulesMembers(init);
      assert outcomes == init + [outcomes[|outcomes| - 1]];
    }
  }

  /** A rejected fetch loads nothing and leaves the later outcomes' modules in place. */
  lemma RejectedOutcomeLoadsNothing(a: seq<Outcome>, b: seq<Outcome>)
    ensures FulfilledModules(a + [Rejected] + b) == FulfilledModules(a) + FulfilledModules(b)
  {
    FulfilledModulesAppend(a, [Rejected]);
    assert [Rejected][..0] == [];
    assert FulfilledModules([Rejected]) == [];
    assert FulfilledModules(a + [Rejected]) == FulfilledModules(a);
    FulfilledModulesAppend(a + [Rejected], b);
  }

  /** Hence a rejected fetch adds no plugins and leaves those of the later outcomes in place. */
  lemma RejectedOutcomeAddsNothing(a: seq<Outcome>, b: seq<Outcome>, config: DisabledConfig)
    ensures FederatedPlugins(a + [Rejected] + b, config) == FederatedPlugins(a, config) + FederatedPlugins(b, config)
  {
    RejectedOutcomeLoadsNothing(a, b);
    PluginsOfAppend(FulfilledModules(a), FulfilledModules(b), config);
  }

  // ---------------------------------------------------------------------------
  // Lines 257-258: exposing the application object.

  function LowerAscii(c: char): char {
    if 'A' <= c <= 'Z' then (c as int + 32) as char else c
  }

  /** `(option || '').toLowerCase() === 'true'` */
  function ExposeAppInBrowser(option: Option<string>): (r: bool)
    ensures r <==> (option.Some? && |option.value| == 4 &&
                    forall i | 0 <= i < 4 :: LowerAscii(option.value[i]) == "true"[i])
    ensures option.None? ==> !r
  {
    var s := if option.Some? then option.value else "";
    seq(|s|, i requires 0 <= i < |s| => LowerAscii(s[i])) == "true"
  }

  /** Options that differ only in the letter case of ASCII letters switch the flag alike. */
  lemma ExposeIgnoresCase(s: string, t: string)
    requires |s| == |t| && forall i | 0 <= i < |s| :: LowerAscii(s[i]) == LowerAscii(t[i])
    ensures ExposeAppInBrowser(Some(s)) == ExposeAppInBrowser(Some(t))
  {
  }

  /** `true` in any letter case switches the flag on. */
  lemma ExposeAcceptsAnyCase()
    ensures ExposeAppInBrowser(Some("true")) && ExposeAppInBrowser(Some("TRUE")) && ExposeAppInBrowser(Some("True"))
    ensures !ExposeAppInBrowser(Some("")) && !ExposeAppInBrowser(Some("1")) && !ExposeAppInBrowser(Some("yes"))
  {
  }

  /** End to end: a package listed in the application's extensions, whose manifest field is
      defined and which is not a federated extension, hands over every active plugin of the
      module its block `require`s, when that `require` succeeds. */
  lemma ListedPackageContributes(names: seq<string>, installed: Installed, f: Field, k: string,
                                 federated: set<string>, bundled: map<string, LoadedModule>,
                                 config: DisabledConfig, p: Plugin)
    requires LabManifests(names, installed) && k in names && k !in federated
    requires FieldOf(installed[k].jupyterlab.value, f) != Undefined
    requires RequirePath(k, EntryValue(FieldOf(installed[k].jupyterlab.value, f))) in bundled
    requires p in ExportedPlugins(bundled[RequirePath(k, EntryValue(FieldOf(installed[k].jupyterlab.value, f)))])
    requires !Dropped(p.id, config)
    ensures p in BundledPlugins(EntriesOf(names, installed, f).keys, EntriesOf(names, installed, f).values,
                                federated, bundled, config)
  {
    var d := EntriesOf(names, installed, f);
    EntriesOfContents(names, installed, f);
    assert k in d.keys && ValueAt(d.values, k) == EntryValue(FieldOf(installed[k].jupyterlab.value, f));
    BundledModulesMembers(d.keys, d.values, federated, bundled);
    var m := bundled[RequirePath(k, ValueAt(d.values, k))];
    assert m in BundledModules(d.keys, d.values, federated, bundled);
    PluginsOfMembers(BundledModules(d.keys, d.values, federated, bundled), config);
  }

  // ---------------------------------------------------------------------------
  // `main` (lines 61-265), without the application object it constructs.

  /** One plugin list: the bundled blocks, then the federated outcomes
      (lines 184-208 for `mimeExtensions`, 210-234 for `pluginsToRegister`). */
  method AssemblePlugins(entries: Dict, federated: set<string>, bundled: map<string, LoadedModule>,
                         outcomes: seq<Outcome>, config: DisabledConfig) returns (plugins: seq<Plugin>)
    ensures plugins == BundledPlugins(entries.keys, entries.values, federated, bundled, config) +
      FederatedPlugins(outcomes, config)
  {
    plugins := PushBundled([], entries, federated, bundled, config);
    assert plugins == BundledPlugins(entries.keys, entries.values, federated, bundled, config);
    plugins := PushFederated(plugins, outcomes, config);
  }

  /** The plugin lists that `main` hands to the application: `mimeExtensions` and
      `pluginsToRegister`, each with the bundled extensions before the federated ones,
      and whether the application is exposed on `window`. */
  method Bootstrap(descriptors: seq<Descriptor>, config: DisabledConfig,
                   bundledMime: Dict, bundledMain: Dict, bundled: map<string, LoadedModule>,
                   mimeOutcomes: seq<Outcome>, mainOutcomes: seq<Outcome>, exposeOption: Option<string>)
    returns (mimeExtensions: seq<Plugin>, pluginsToRegister: seq<Plugin>, expose: bool)
    requires |mimeOutcomes| == |Requests(descriptors, MimePart)|
    requires |mainOutcomes| == |Requests(descriptors, MainPart)|
    ensures mimeExtensions ==
      BundledPlugins(bundledMime.keys, bundledMime.values, FederatedNames(descriptors), bundled, config) +
      FederatedPlugins(mimeOutcomes, config)
    ensures pluginsToRegister ==
      BundledPlugins(bundledMain.keys, bundledMain.values, FederatedNames(descriptors), bundled, config) +
      FederatedPlugins(mainOutcomes, config)
    ensures expose == ExposeAppInBrowser(exposeOption)
  {
    var names, mainRequests, mimeRequests, styleRequests := PartitionDescriptors(descriptors);
    mimeExtensions := AssemblePlugins(bundledMime, names, bundled, mimeOutcomes, config);
    pluginsToRegister := AssemblePlugins(bundledMain, names, bundled, mainOutcomes, config);
    expose := ExposeAppInBrowser(exposeOption);
  }
}
