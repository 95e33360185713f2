/**
 * The module-federation `shared` table that the build script computes for each
 * application (`createShared`) and folds across all applications.
 *
 * Each loop of `createShared` is a method proved equal to a declarative function
 * of its inputs; a loop over the entries of a JavaScript object is modelled by
 * picking keys in an arbitrary order, so each proof also shows that the order in
 * which the object's keys are visited does not matter.
 */
module SharedPolicy {
  import opened JsValues

  /** One entry of the `shared` table; also the shape of a custom `sharedPackages`
      config. `importValue` is the `import` key (Undefined when absent); `bundled`
      is None when the `bundled` key is absent. */
  datatype ShareConfig = ShareConfig(
    requiredVersion: Option<string>,
    importValue: Scalar,
    singleton: Option<bool>,
    bundled: Option<Scalar>)

  /** A value of a manifest's `jupyterlab.sharedPackages`: `false`, or a config object. */
  datatype CustomShare = Unshared | Custom(config: ShareConfig)

  /** The `jupyterlab` section of a package manifest. */
  datatype LabMetadata = LabMetadata(
    extension: Scalar,
    mimeExtension: Scalar,
    sharedPackages: map<string, CustomShare>)

  /** What `require('<pkg>/package.json')` yields. */
  datatype Manifest = Manifest(
    version: Option<string>,
    dependencies: map<string, string>,
    jupyterlab: Option<LabMetadata>)

  /** The parts of an application's own package.json that `createShared` reads. */
  datatype AppPackage = AppPackage(
    resolutions: map<string, string>,
    extensions: seq<string>,
    singletonPackages: seq<string>)

  type Shared = map<string, ShareConfig>

  /** The installed packages: `require('<pkg>/package.json')` throws for a name not in it. */
  type Installed = map<string, Manifest>

  /** The entry `{ requiredVersion }` built at lines 83, 89-91 and 107. */
  function VersionEntry(v: Option<string>): ShareConfig {
    ShareConfig(v, Undefined, None, None)
  }

  /** `config.import === false` */
  predicate ImportDisabled(c: ShareConfig) {
    c.importValue == Bool(false)
  }

  /** The rename of `bundled` to `import` (lines 116-119). */
  function Normalized(c: ShareConfig): ShareConfig {
    if c.bundled.Some? then c.(importValue := c.bundled.value, bundled := None) else c
  }

  /** Renaming twice is renaming once: a manifest config object already renamed by an
      earlier application of the fold (the manifest is cached by `require`) yields the
      same entry again. */
  lemma NormalizedIdempotent(c: ShareConfig)
    ensures Normalized(c).bundled.None?
    ensures Normalized(Normalized(c)) == Normalized(c)
    ensures c.bundled.None? ==> Normalized(c) == c
  {
  }

  // ---------------------------------------------------------------------------
  // Lines 82-84: every resolution is shared at its resolved version.

  function WithResolutions(s: Shared, resolutions: map<string, string>): Shared {
    s + map p | p in resolutions :: VersionEntry(Some(resolutions[p]))
  }

  method AddResolutions(s: Shared, resolutions: map<string, string>) returns (r: Shared)
    ensures r == WithResolutions(s, resolutions)
  {
    r := s;
    var pending := resolutions.Keys;
    while pending != {}
      invariant pending <= resolutions.Keys
      invariant r == s + map p | p in resolutions.Keys - pending :: VersionEntry(Some(resolutions[p]))
      decreases pending
    {
      var p :| p in pending;
      r := r[p := VersionEntry(Some(resolutions[p]))];
      pending := pending - {p};
    }
  }

  // ---------------------------------------------------------------------------
  // Lines 87-93: extension packages not shared yet are shared at their installed version.

  function WithExtensionPackages(s: Shared, exts: seq<string>, installed: Installed): Shared
    requires forall p <- exts :: p in s || p in installed
  {
    s + map p | p in exts && p !in s :: VersionEntry(installed[p].version)
  }

  method AddExtensionPackages(s: Shared, exts: seq<string>, installed: Installed) returns (r: Result<Shared>)
    ensures r.Ok? <==> forall p <- exts :: p in s || p in installed
    ensures r.Ok? ==> r.value == WithExtensionPackages(s, exts, installed)
  {
    var shared := s;
    for i := 0 to |exts|
      invariant forall p <- exts[..i] :: p in s || p in installed
      invariant shared == s + map p | p in exts[..i] && p !in s :: VersionEntry(installed[p].version)
    {
      var p := exts[i];
      assert exts[..i + 1] == exts[..i] + [p];
      if p !in shared {
        if p !in installed {
          return RequireFailed;
        }
        shared := shared[p := VersionEntry(installed[p].version)];
      }
    }
    assert exts[..|exts|] == exts;
    return Ok(shared);
  }

  // ---------------------------------------------------------------------------
  // Lines 100-122: what one extension package contributes (`pkgShared`).

  /** Its dependencies that are not shared yet, at the version it depends on (105-109). */
  function DependencyShare(dependencies: map<string, string>, s: Shared): Shared {
    map d | d in dependencies && d !in s :: VersionEntry(Some(dependencies[d]))
  }

  /** Custom sharing config overrides the automatic one; `false` removes the package (112-122). */
  function WithCustomSharing(auto: Shared, custom: map<string, CustomShare>): Shared {
    map d | d in auto.Keys + custom.Keys && (d in custom ==> custom[d].Custom?) ::
      if d in custom then Normalized(custom[d].config) else auto[d]
  }

  /** `jupyterlab: { sharedPackages = {} } = {}` (line 103). */
  function SharedPackagesOf(m: Manifest): map<string, CustomShare> {
    if m.jupyterlab.Some? then m.jupyterlab.value.sharedPackages else map[]
  }

  function PackageShare(m: Manifest, s: Shared): Shared {
    WithCustomSharing(DependencyShare(m.dependencies, s), SharedPackagesOf(m))
  }

  /** Within one extension package a `sharedPackages` config overrides the automatic
      dependency entry: `false` removes the package, a config object replaces the entry
      with `bundled` renamed to `import`; every other dependency not yet shared keeps its
      declared version. */
  lemma CustomSharingOverrides(m: Manifest, s: Shared, d: string)
    ensures d in SharedPackagesOf(m) && SharedPackagesOf(m)[d].Unshared? ==> d !in PackageShare(m, s)
    ensures d in SharedPackagesOf(m) && SharedPackagesOf(m)[d].Custom? ==>
      var c := SharedPackagesOf(m)[d].config;
      && d in PackageShare(m, s)
      && PackageShare(m, s)[d].bundled.None?
      && PackageShare(m, s)[d].importValue == (if c.bundled.Some? then c.bundled.value else c.importValue)
      && PackageShare(m, s)[d].requiredVersion == c.requiredVersion
      && PackageShare(m, s)[d].singleton == c.singleton
    ensures d !in SharedPackagesOf(m) ==>
      && (d in PackageShare(m, s) <==> d in m.dependencies && d !in s)
      && (d in PackageShare(m, s) ==> PackageShare(m, s)[d] == VersionEntry(Some(m.dependencies[d])))
  {
  }

  /** The loop of lines 105-109 over the package's dependencies. */
  method AddDependencies(dependencies: map<string, string>, s: Shared) returns (pkgShared: Shared)
    ensures pkgShared == DependencyShare(dependencies, s)
  {
    pkgShared := map[];
    var pending := dependencies.Keys;
    while pending != {}
      invariant pending <= dependencies.Keys
      invariant pkgShared.Keys == (dependencies.Keys - pending) - s.Keys
      invariant forall d | d in pkgShared :: pkgShared[d] == VersionEntry(Some(dependencies[d]))
      decreases pending
    {
      var dep :| dep in pending;
      if dep !in s {
        pkgShared := pkgShared[dep := VersionEntry(Some(dependencies[dep]))];
      }
      pending := pending - {dep};
    }
    assert pkgShared.Keys == DependencyShare(dependencies, s).Keys;
  }

  /** The loop of lines 112-122 over the package's `sharedPackages`. */
  method ApplyCustomSharing(auto: Shared, custom: map<string, CustomShare>) returns (pkgShared: Shared)
    ensures pkgShared == WithCustomSharing(auto, custom)
  {
    pkgShared := auto;
    var todo := custom.Keys;
    while todo != {}
      invariant todo <= custom.Keys
      invariant forall d :: d in pkgShared <==> (d in auto || d in custom.Keys - todo) && (d in custom.Keys - todo ==> custom[d].Custom?)
      invariant forall d | d in pkgShared :: pkgShared[d] == if d in custom.Keys - todo then Normalized(custom[d].config) else auto[d]
      decreases todo
    {
      var dep :| dep in todo;
      match custom[dep] {
        case Unshared =>
          pkgShared := pkgShared - {dep};
        case Custom(config) =>
          pkgShared := pkgShared[dep := Normalized(config)];
      }
      todo := todo - {dep};
    }
    assert pkgShared.Keys == WithCustomSharing(auto, custom).Keys;
  }

  /** Lines 100-123: what one extension package contributes. */
  method ExtensionShare(m: Manifest, s: Shared) returns (pkgShared: Shared)
    ensures pkgShared == PackageShare(m, s)
  {
    pkgShared := AddDependencies(m.dependencies, s);
    pkgShared := ApplyCustomSharing(pkgShared, SharedPackagesOf(m));
  }

  // ---------------------------------------------------------------------------
  // Lines 127-150: merging the contributions of all extension packages.

  /** One pass of the inner loop (129-149) over the contribution `c` of one package:
      packages already in `s` are skipped; a package seen for the first time is taken;
      a package seen before is replaced only when the kept config has `import: false`. */
  function MergeStep(merged: Shared, c: Shared, s: Shared): Shared {
    map k | k in merged.Keys + (c.Keys - s.Keys) ::
      if k in c && k !in s && (k !in merged || ImportDisabled(merged[k])) then c[k] else merged[k]
  }

  /** `mergedShare` after the outer loop over `extraShared` (128-150). */
  function MergeAll(extras: seq<Shared>, s: Shared): Shared
    decreases |extras|
  {
    if extras == [] then map[]
    else MergeStep(MergeAll(extras[..|extras| - 1], s), extras[|extras| - 1], s)
  }

  /** The inner loop of lines 129-149, over the entries of one contribution `c`. */
  method MergeContribution(merged: Shared, c: Shared, s: Shared) returns (r: Shared)
    ensures r == MergeStep(merged, c, s)
  {
    r := merged;
    var pending := c.Keys;
    while pending != {}
      invariant pending <= c.Keys
      invariant r.Keys == merged.Keys + ((c.Keys - pending) - s.Keys)
      invariant forall k | k in r ::
        r[k] == if k in c && k !in pending && k !in s && (k !in merged || ImportDisabled(merged[k])) then c[k] else merged[k]
      decreases pending
    {
      var pkg :| pkg in pending;
      if pkg !in s {
        if pkg !in r {
          r := r[pkg := c[pkg]];
        } else if ImportDisabled(r[pkg]) {
          r := r[pkg := c[pkg]];
        }
      }
      pending := pending - {pkg};
    }
    assert r.Keys == MergeStep(merged, c, s).Keys;
  }

  method MergeExtraShared(extras: seq<Shared>, s: Shared) returns (merged: Shared)
    ensures merged == MergeAll(extras, s)
  {
    merged := map[];
    for i := 0 to |extras|
      invariant merged == MergeAll(extras[..i], s)
    {
      assert extras[..i + 1][..i] == extras[..i];
      merged := MergeContribution(merged, extras[i], s);
    }
    assert extras[..|extras|] == extras;
  }

  /** The configs that the extension packages contribute for `k`, in package order. */
  function Contributions(extras: seq<Shared>, k: string): seq<ShareConfig>
    decreases |extras|
  {
    if extras == [] then []
    else
      var last := extras[|extras| - 1];
      Contributions(extras[..|extras| - 1], k) + (if k in last then [last[k]] else [])
  }

  /** The config kept after seeing the contributions `cs` in order. */
  function Winner(cs: seq<ShareConfig>): ShareConfig
    requires cs != []
    decreases |cs|
  {
    if |cs| == 1 then cs[0]
    else
      var kept := Winner(cs[..|cs| - 1]);
      if ImportDisabled(kept) then cs[|cs| - 1] else kept
  }

  /** `cs[j]` is the first contribution whose `import` is not `false`. */
  predicate FirstEnabledAt(cs: seq<ShareConfig>, j: int) {
    0 <= j < |cs| && !ImportDisabled(cs[j]) && forall i | 0 <= i < j :: ImportDisabled(cs[i])
  }

  /** The kept config is the first one whose `import` is not `false`, or the last
      contribution when every one of them has `import: false`. */
  lemma {:induction false} WinnerIsFirstEnabled(cs: seq<ShareConfig>)
    requires cs != []
    ensures forall j :: FirstEnabledAt(cs, j) ==> Winner(cs) == cs[j]
    ensures (forall i | 0 <= i < |cs| :: ImportDisabled(cs[i])) ==> Winner(cs) == cs[|cs| - 1]
    decreases |cs|
  {
    if |cs| > 1 {
      var init := cs[..|cs| - 1];
      WinnerIsFirstEnabled(init);
      forall j | FirstEnabledAt(cs, j) ensures Winner(cs) == cs[j] {
        if j < |cs| - 1 {
          assert FirstEnabledAt(init, j);
        } else {
          assert forall i | 0 <= i < |init| :: ImportDisabled(init[i]);
        }
      }
      if forall i | 0 <= i < |cs| :: ImportDisabled(cs[i]) {
        assert forall i | 0 <= i < |init| :: ImportDisabled(init[i]);
      }
    }
  }

  /** The merged table holds exactly the packages outside `s` that some extension
      contributes, each with the winner of its contributions. */
  lemma {:induction false} MergeAllPicksWinner(extras: seq<Shared>, s: Shared, k: string)
    ensures k in MergeAll(extras, s) <==> k !in s && Contributions(extras, k) != []
    ensures k in MergeAll(extras, s) ==> MergeAll(extras, s)[k] == Winner(Contributions(extras, k))
    decreases |extras|
  {
    if extras != [] {
      var init := extras[..|extras| - 1];
      MergeAllPicksWinner(init, s, k);
      var cs := Contributions(init, k);
      var last := extras[|extras| - 1];
      if k in last {
        var cs' := cs + [last[k]];
        assert Contributions(extras, k) == cs';
        if cs != [] {
          assert cs'[..|cs'| - 1] == cs;
          assert Winner(cs') == if ImportDisabled(Winner(cs)) then last[k] else Winner(cs);
        }
      } else {
        assert Contributions(extras, k) == cs;
      }
    }
  }

  /** Across extensions the first contribution is kept unless it has `import: false`. */
  lemma FirstContributionWins(extras: seq<Shared>, s: Shared, k: string)
    requires k !in s
    requires Contributions(extras, k) != [] && !ImportDisabled(Contributions(extras, k)[0])
    ensures k in MergeAll(extras, s) && MergeAll(extras, s)[k] == Contributions(extras, k)[0]
  {
    MergeAllPicksWinner(extras, s, k);
    WinnerIsFirstEnabled(Contributions(extras, k));
    assert FirstEnabledAt(Contributions(extras, k), 0);
  }

  // ---------------------------------------------------------------------------
  // Lines 157-161: `file:` versions are replaced by the installed version.

  predicate IsFileVersion(c: ShareConfig) {
    c.requiredVersion.Some? && StartsWith(c.requiredVersion.value, "file:")
  }

  predicate FileVersionsInstalled(s: Shared, installed: Installed) {
    forall p | p in s && IsFileVersion(s[p]) :: p in installed
  }

  function WithInstalledVersions(s: Shared, installed: Installed): Shared
    requires FileVersionsInstalled(s, installed)
  {
    map p | p in s :: if IsFileVersion(s[p]) then s[p].(requiredVersion := installed[p].version) else s[p]
  }

  method UseInstalledVersions(s: Shared, installed: Installed) returns (r: Result<Shared>)
    ensures r.Ok? <==> FileVersionsInstalled(s, installed)
    ensures r.Ok? ==> r.value == WithInstalledVersions(s, installed)
  {
    var shared := s;
    var pending := s.Keys;
    while pending != {}
      invariant pending <= s.Keys
      invariant forall p | p in s.Keys - pending && IsFileVersion(s[p]) :: p in installed
      invariant shared == map p | p in s :: if p !in pending && IsFileVersion(s[p]) then s[p].(requiredVersion := installed[p].version) else s[p]
      decreases pending
    {
      var pkg :| pkg in pending;
      if IsFileVersion(shared[pkg]) {
        if pkg !in installed {
          return RequireFailed;
        }
        shared := shared[pkg := shared[pkg].(requiredVersion := installed[pkg].version)];
      }
      pending := pending - {pkg};
    }
    return Ok(shared);
  }

  // ---------------------------------------------------------------------------
  // Lines 164-168: singleton packages already shared are marked `singleton: true`.

  function WithSingletons(s: Shared, singletons: seq<string>): Shared {
    map p | p in s :: if p in singletons then s[p].(singleton := Some(true)) else s[p]
  }

  method MarkSingletons(s: Shared, singletons: seq<string>) returns (r: Shared)
    ensures r == WithSingletons(s, singletons)
  {
    r := s;
    for i := 0 to |singletons|
      invariant r == map p | p in s :: if p in singletons[..i] then s[p].(singleton := Some(true)) else s[p]
    {
      var pkg := singletons[i];
      assert singletons[..i + 1] == singletons[..i] + [pkg];
      if pkg in r {
        r := r[pkg := r[pkg].(singleton := Some(true))];
      }
    }
    assert singletons[..|singletons|] == singletons;
  }

  // ---------------------------------------------------------------------------
  // The whole of `createShared` (lines 75-171).

  predicate ManifestsInstalled(app: AppPackage, installed: Installed) {
    forall p <- app.extensions :: p in installed
  }

  /** `shared || {}` (line 77) */
  function Initial(memo: Option<Shared>): Shared {
    if memo.Some? then memo.value else map[]
  }

  /** `shared` after the loops of lines 82-93. */
  function BaseShare(app: AppPackage, installed: Installed, memo: Option<Shared>): Shared
    requires ManifestsInstalled(app, installed)
  {
    WithExtensionPackages(WithResolutions(Initial(memo), app.resolutions), app.extensions, installed)
  }

  /** `extraShared` (lines 98-124): one contribution per extension package, in order. */
  function ExtraShares(exts: seq<string>, installed: Installed, s: Shared): seq<Shared>
    requires forall p <- exts :: p in installed
  {
    seq(|exts|, i requires 0 <= i < |exts| => PackageShare(installed[exts[i]], s))
  }

  /** `shared` after `Object.assign(shared, mergedShare)` (line 152). */
  function MergedShare(app: AppPackage, installed: Installed, memo: Option<Shared>): Shared
    requires ManifestsInstalled(app, installed)
  {
    var s := BaseShare(app, installed, memo);
    s + MergeAll(ExtraShares(app.extensions, installed, s), s)
  }

  /** What `createShared(packageData, memo)` returns, or that it throws. */
  function SharedTable(app: AppPackage, installed: Installed, memo: Option<Shared>): Result<Shared> {
    if !ManifestsInstalled(app, installed) then RequireFailed
    else
      var s := MergedShare(app, installed, memo);
      if !FileVersionsInstalled(s, installed) then RequireFailed
      else Ok(WithSingletons(WithInstalledVersions(s, installed), app.singletonPackages))
  }

  /** The loop of lines 99-124: one contribution per extension package, in order; it
      fails when some package's manifest is not installed. */
  method CollectContributions(exts: seq<string>, installed: Installed, s: Shared) returns (r: Result<seq<Shared>>)
    ensures r.Ok? <==> forall p <- exts :: p in installed
    ensures r.Ok? ==> (forall p <- exts :: p in installed) && r.value == ExtraShares(exts, installed, s)
  {
    var extraShared: seq<Shared> := [];
    for i := 0 to |exts|
      invariant |extraShared| == i
      invariant forall p <- exts[..i] :: p in installed
      invariant forall j | 0 <= j < i :: extraShared[j] == PackageShare(installed[exts[j]], s)
    {
      var pkg := exts[i];
      assert exts[..i + 1] == exts[..i] + [pkg];
      if pkg !in installed {
        return RequireFailed;
      }
      var pkgShared := ExtensionShare(installed[pkg], s);
      extraShared := extraShared + [pkgShared];
    }
    assert exts[..|exts|] == exts;
    return Ok(extraShared);
  }

  method CreateShared(app: AppPackage, installed: Installed, memo: Option<Shared>) returns (r: Result<Shared>)
    ensures r == SharedTable(app, installed, memo)
  {
    var shared := if memo.Some? then memo.value else map[];
    shared := AddResolutions(shared, app.resolutions);
    var added := AddExtensionPackages(shared, app.extensions, installed);
    if added.RequireFailed? {
      return RequireFailed;
    }
    shared := added.value;
    var collected := CollectContributions(app.extensions, installed, shared);
    if collected.RequireFailed? {
      return RequireFailed;
    }
    var mergedShare := MergeExtraShared(collected.value, shared);
    shared := shared + mergedShare;
    var rewritten := UseInstalledVersions(shared, installed);
    if rewritten.RequireFailed? {
      return RequireFailed;
    }
    shared := MarkSingletons(rewritten.value, app.singletonPackages);
    return Ok(shared);
  }

  // ---------------------------------------------------------------------------
  // Properties of `createShared`.

  /** The two post-passes applied to the entry `c` of package `p` (lines 157-168). */
  function Finished(p: string, c: ShareConfig, installed: Installed, singletons: seq<string>): ShareConfig
    requires IsFileVersion(c) ==> p in installed
  {
    var v := if IsFileVersion(c) then c.(requiredVersion := installed[p].version) else c;
    if p in singletons then v.(singleton := Some(true)) else v
  }

  /** Entries already in `s` never come out of the merge of extension contributions. */
  lemma MergeAllAvoidsShared(extras: seq<Shared>, s: Shared)
    ensures forall k | k in MergeAll(extras, s) :: k !in s
  {
    forall k | k in MergeAll(extras, s) ensures k !in s {
      MergeAllPicksWinner(extras, s, k);
    }
  }

  /** `createShared` returns the merged table with both post-passes applied to each entry,
      and deletes no key: the input table's keys, the resolutions and the extension
      packages are all in the result. */
  lemma SharedTableEntries(app: AppPackage, installed: Installed, memo: Option<Shared>)
    requires SharedTable(app, installed, memo).Ok?
    ensures ManifestsInstalled(app, installed)
    ensures SharedTable(app, installed, memo).value.Keys == MergedShare(app, installed, memo).Keys
    ensures Initial(memo).Keys + app.resolutions.Keys <= SharedTable(app, installed, memo).value.Keys
    ensures forall p <- app.extensions :: p in SharedTable(app, installed, memo).value
    ensures forall p | p in MergedShare(app, installed, memo) ::
      (IsFileVersion(MergedShare(app, installed, memo)[p]) ==> p in installed) &&
      SharedTable(app, installed, memo).value[p] ==
        Finished(p, MergedShare(app, installed, memo)[p], installed, app.singletonPackages)
  {
  }

  /** Everything in the table before the merge of extension contributions (the memo,
      the resolutions and the extension packages) keeps its entry through the merge. */
  lemma BaseEntriesKept(app: AppPackage, installed: Installed, memo: Option<Shared>)
    requires ManifestsInstalled(app, installed)
    ensures forall k | k in BaseShare(app, installed, memo) ::
      k in MergedShare(app, installed, memo) &&
      MergedShare(app, installed, memo)[k] == BaseShare(app, installed, memo)[k]
  {
    var s := BaseShare(app, installed, memo);
    MergeAllAvoidsShared(ExtraShares(app.extensions, installed, s), s);
  }

  /** A resolution is shared at exactly its resolved version (the installed one when it is a
      `file:` version), whatever an earlier application of the fold had placed there, and is
      a singleton only when this application lists it as one. */
  lemma ResolutionsWin(app: AppPackage, installed: Installed, memo: Option<Shared>, p: string)
    requires SharedTable(app, installed, memo).Ok?
    requires p in app.resolutions
    ensures p in SharedTable(app, installed, memo).value
    ensures StartsWith(app.resolutions[p], "file:") ==> p in installed
    ensures SharedTable(app, installed, memo).value[p] == ShareConfig(
      if StartsWith(app.resolutions[p], "file:") then installed[p].version else Some(app.resolutions[p]),
      Undefined,
      if p in app.singletonPackages then Some(true) else None,
      None)
  {
    SharedTableEntries(app, installed, memo);
    BaseEntriesKept(app, installed, memo);
  }

  /** An extension package that neither the input table nor the resolutions mention is shared
      at its installed version. */
  lemma ExtensionPackageAtInstalledVersion(app: AppPackage, installed: Installed, memo: Option<Shared>, p: string)
    requires SharedTable(app, installed, memo).Ok?
    requires p in app.extensions && p !in Initial(memo) && p !in app.resolutions
    ensures p in installed && p in SharedTable(app, installed, memo).value
    ensures SharedTable(app, installed, memo).value[p] == ShareConfig(
      installed[p].version,
      Undefined,
      if p in app.singletonPackages then Some(true) else None,
      None)
  {
    SharedTableEntries(app, installed, memo);
    BaseEntriesKept(app, installed, memo);
  }

  /** A package not shared before the merge is in the result iff some extension package
      contributes it, and then its entry is the winner among the contributions. */
  lemma ContributedEntry(app: AppPackage, installed: Installed, memo: Option<Shared>, k: string)
    requires SharedTable(app, installed, memo).Ok?
    requires ManifestsInstalled(app, installed) && k !in BaseShare(app, installed, memo)
    ensures var cs := Contributions(ExtraShares(app.extensions, installed, BaseShare(app, installed, memo)), k);
      && (k in SharedTable(app, installed, memo).value <==> cs != [])
      && (cs != [] ==>
            (IsFileVersion(Winner(cs)) ==> k in installed) &&
            SharedTable(app, installed, memo).value[k] == Finished(k, Winner(cs), installed, app.singletonPackages))
  {
    var s := BaseShare(app, installed, memo);
    SharedTableEntries(app, installed, memo);
    MergeAllPicksWinner(ExtraShares(app.extensions, installed, s), s, k);
  }

  /** No entry keeps a `file:` version other than the installed version of its package. */
  lemma NoFileVersionLeft(app: AppPackage, installed: Installed, memo: Option<Shared>)
    requires SharedTable(app, installed, memo).Ok?
    ensures forall p | p in SharedTable(app, installed, memo).value && IsFileVersion(SharedTable(app, installed, memo).value[p]) ::
      p in installed && SharedTable(app, installed, memo).value[p].requiredVersion == installed[p].version
  {
    SharedTableEntries(app, installed, memo);
  }

  /** Every listed singleton that is shared is marked; listing a name adds no entry. */
  lemma SingletonsMarked(app: AppPackage, installed: Installed, memo: Option<Shared>)
    requires SharedTable(app, installed, memo).Ok?
    ensures ManifestsInstalled(app, installed)
    ensures forall p <- app.singletonPackages ::
      (p in SharedTable(app, installed, memo).value <==> p in MergedShare(app, installed, memo)) &&
      (p in SharedTable(app, installed, memo).value ==> SharedTable(app, installed, memo).value[p].singleton == Some(true))
  {
    SharedTableEntries(app, installed, memo);
  }

  // ---------------------------------------------------------------------------
  // Lines 408-411: `Object.values(liteAppData).reduce((memo, data) => createShared(data, memo), {})`.

  function FoldShared(apps: seq<AppPackage>, installed: Installed): Result<Shared>
    decreases |apps|
  {
    if apps == [] then Ok(map[])
    else
      match FoldShared(apps[..|apps| - 1], installed)
      case RequireFailed => RequireFailed
      case Ok(memo) => SharedTable(apps[|apps| - 1], installed, Some(memo))
  }

  /** The fold never drops a key: whatever an earlier application shares, the final table shares. */
  lemma {:induction false} FoldKeepsKeys(apps: seq<AppPackage>, installed: Installed, i: nat)
    requires i <= |apps| && FoldShared(apps, installed).Ok?
    ensures FoldShared(apps[..i], installed).Ok?
    ensures FoldShared(apps[..i], installed).value.Keys <= FoldShared(apps, installed).value.Keys
    decreases |apps|
  {
    if i < |apps| {
      var init := apps[..|apps| - 1];
      assert apps[..i] == init[..i];
      var memo := FoldShared(init, installed).value;
      SharedTableEntries(apps[|apps| - 1], installed, Some(memo));
      FoldKeepsKeys(init, installed, i);
    } else {
      assert apps[..i] == apps;
    }
  }

  /** In the folded table the last application's resolutions are shared exactly as it
      resolves them, replacing whatever earlier applications placed there. */
  lemma FoldLastResolutionWins(apps: seq<AppPackage>, installed: Installed, p: string)
    requires apps != [] && FoldShared(apps, installed).Ok?
    requires p in apps[|apps| - 1].resolutions
    ensures p in FoldShared(apps, installed).value
    ensures var last := apps[|apps| - 1];
      && (StartsWith(last.resolutions[p], "file:") ==> p in installed)
      && FoldShared(apps, installed).value[p] == ShareConfig(
           if StartsWith(last.resolutions[p], "file:") then installed[p].version else Some(last.resolutions[p]),
           Undefined,
           if p in last.singletonPackages then Some(true) else None,
           None)
  {
    var memo := FoldShared(apps[..|apps| - 1], installed).value;
    ResolutionsWin(apps[|apps| - 1], installed, Some(memo), p);
  }
}
