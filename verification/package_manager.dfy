/** The setup wizard's package helpers: which features a project already uses,
    whether it uses TypeScript, which packages to install for a selection, which
    selections to refuse, and whether ESLint or this configuration is installed.
    Reading `package.json` and running `npm` are inputs: a parsed manifest or a
    read failure, and the parsed output of `npm ls` or a failure. */
module PackageManager {
  import opened Wrappers
  import opened Seqs
  import opened Text
  import opened Dicts
  import opened Js

  /** One feature of the wizard (`IFeatureConfig`); an absent `required` or
      `requiresTypescript` is `false`. The description is not modelled. */
  datatype FeatureConfig = FeatureConfig(
    packages: seq<string>,
    detect: Option<seq<string>>,
    required: bool,
    requiresTypescript: bool)

  /** The feature table, by feature name in declaration order. */
  type Features = Dict<FeatureConfig>

  /** `FEATURES_CONFIG.checkFile`. */
  const FeatureCheckFile := FeatureConfig(["eslint-plugin-check-file"], None, false, false)

  /** `FEATURES_CONFIG.javascript`. */
  const FeatureJavascript := FeatureConfig([], None, true, false)

  /** `FEATURES_CONFIG.json`. */
  const FeatureJson := FeatureConfig(["eslint-plugin-jsonc"], None, false, false)

  /** `FEATURES_CONFIG.nest`. */
  const FeatureNest := FeatureConfig(["eslint-plugin-ng-module-sort", "@elsikora/eslint-plugin-nestjs-typed"],
    Some(["@nestjs/core", "@nestjs/common"]), false, true)

  /** `FEATURES_CONFIG.node`. */
  const FeatureNode := FeatureConfig(["eslint-plugin-n"], Some(["node", "@types/node"]), false, false)

  /** `FEATURES_CONFIG.packageJson`. */
  const FeaturePackageJson := FeatureConfig(["eslint-plugin-package-json"], None, false, false)

  /** `FEATURES_CONFIG.perfectionist`. */
  const FeaturePerfectionist := FeatureConfig(["eslint-plugin-perfectionist"], None, false, false)

  /** `FEATURES_CONFIG.prettier`. */
  const FeaturePrettier := FeatureConfig(["eslint-plugin-prettier", "eslint-config-prettier", "prettier"],
    Some(["prettier"]), false, false)

  /** `FEATURES_CONFIG.react`. */
  const FeatureReact := FeatureConfig(["@eslint-react/eslint-plugin"],
    Some(["react", "react-dom", "@types/react"]), false, false)

  /** `FEATURES_CONFIG.regexp`. */
  const FeatureRegexp := FeatureConfig(["eslint-plugin-regexp"], None, false, false)

  /** `FEATURES_CONFIG.sonar`. */
  const FeatureSonar := FeatureConfig(["eslint-plugin-sonarjs"], None, false, false)

  /** `FEATURES_CONFIG.stylistic`. */
  const FeatureStylistic := FeatureConfig(["@stylistic/eslint-plugin"], None, false, false)

  /** `FEATURES_CONFIG.tailwindCss`. */
  const FeatureTailwindCss := FeatureConfig(["eslint-plugin-tailwindcss"], Some(["tailwindcss"]), false, false)

  /** `FEATURES_CONFIG.typeorm`. */
  const FeatureTypeorm := FeatureConfig(["eslint-plugin-typeorm-typescript"], Some(["typeorm", "@typeorm/core"]), false, true)

  /** `FEATURES_CONFIG.typescript`. */
  const FeatureTypescript := FeatureConfig(["typescript", "@typescript-eslint/parser", "@typescript-eslint/eslint-plugin", "typescript-eslint"],
    Some(["typescript", "@types/node"]), false, true)

  /** `FEATURES_CONFIG.unicorn`. */
  const FeatureUnicorn := FeatureConfig(["eslint-plugin-unicorn"], None, false, false)

  /** `FEATURES_CONFIG.yaml`. */
  const FeatureYaml := FeatureConfig(["eslint-plugin-yml"], None, false, false)

  /** `FEATURES_CONFIG`. */
  const FeaturesConfig: Features := [
    Entry("checkFile", FeatureCheckFile),
    Entry("javascript", FeatureJavascript),
    Entry("json", FeatureJson),
    Entry("nest", FeatureNest),
    Entry("node", FeatureNode),
    Entry("packageJson", FeaturePackageJson),
    Entry("perfectionist", FeaturePerfectionist),
    Entry("prettier", FeaturePrettier),
    Entry("react", FeatureReact),
    Entry("regexp", FeatureRegexp),
    Entry("sonar", FeatureSonar),
    Entry("stylistic", FeatureStylistic),
    Entry("tailwindCss", FeatureTailwindCss),
    Entry("typeorm", FeatureTypeorm),
    Entry("typescript", FeatureTypescript),
    Entry("unicorn", FeatureUnicorn),
    Entry("yaml", FeatureYaml)
  ]

  /** `CORE_DEPENDENCIES`. */
  const CoreDependencies: seq<string> := ["@elsikora/eslint-config", "@eslint/js", "@eslint/compat", "@types/eslint__js"]

  /** The first six feature names are in increasing order. */
  lemma FeatureNamesAscendingHead()
    ensures |FeaturesConfig| == 17
    ensures forall i | 0 <= i < 5 :: Precedes(FeaturesConfig[i].key, FeaturesConfig[i + 1].key)
  {
    assert PrecedesAt(FeaturesConfig[0].key, FeaturesConfig[1].key, 0);
    assert PrecedesAt(FeaturesConfig[1].key, FeaturesConfig[2].key, 1);
    assert PrecedesAt(FeaturesConfig[2].key, FeaturesConfig[3].key, 0);
    assert PrecedesAt(FeaturesConfig[3].key, FeaturesConfig[4].key, 1);
    assert PrecedesAt(FeaturesConfig[4].key, FeaturesConfig[5].key, 0);
  }

  /** Feature names 5 to 11 are in increasing order. */
  lemma FeatureNamesAscendingMiddle()
    ensures forall i | 5 <= i < 11 :: Precedes(FeaturesConfig[i].key, FeaturesConfig[i + 1].key)
  {
    assert PrecedesAt(FeaturesConfig[5].key, FeaturesConfig[6].key, 1);
    assert PrecedesAt(FeaturesConfig[6].key, FeaturesConfig[7].key, 1);
    assert PrecedesAt(FeaturesConfig[7].key, FeaturesConfig[8].key, 0);
    assert PrecedesAt(FeaturesConfig[8].key, FeaturesConfig[9].key, 2);
    assert PrecedesAt(FeaturesConfig[9].key, FeaturesConfig[10].key, 0);
    assert PrecedesAt(FeaturesConfig[10].key, FeaturesConfig[11].key, 1);
  }

  /** Feature names 11 to 16 are in increasing order. */
  lemma FeatureNamesAscendingTail()
    ensures forall i | 11 <= i < 16 :: Precedes(FeaturesConfig[i].key, FeaturesConfig[i + 1].key)
  {
    assert PrecedesAt(FeaturesConfig[11].key, FeaturesConfig[12].key, 0);
    assert PrecedesAt(FeaturesConfig[12].key, FeaturesConfig[13].key, 1);
    assert PrecedesAt(FeaturesConfig[13].key, FeaturesConfig[14].key, 4);
    assert PrecedesAt(FeaturesConfig[14].key, FeaturesConfig[15].key, 0);
    assert PrecedesAt(FeaturesConfig[15].key, FeaturesConfig[16].key, 0);
  }

  /** No feature is declared twice: the names are in increasing order. */
  lemma FeaturesConfigWellFormed()
    ensures WellFormed(FeaturesConfig)
  {
    FeatureNamesAscendingHead();
    FeatureNamesAscendingMiddle();
    FeatureNamesAscendingTail();
    var ks := Keys(FeaturesConfig);
    assert Ascending(ks);
    AscendingDistinct(ks);
  }

  /** `javascript` is the only required feature, and `nest`, `typeorm` and
      `typescript` are the ones that need TypeScript. */
  lemma FeaturesConfigFlags()
    ensures forall i | 0 <= i < |FeaturesConfig| ::
      FeaturesConfig[i].value.required <==> i == 1
    ensures FeaturesConfig[1].key == "javascript"
    ensures forall i | 0 <= i < |FeaturesConfig| ::
      FeaturesConfig[i].value.requiresTypescript <==> FeaturesConfig[i].key in ["nest", "typeorm", "typescript"]
  {
  }

  /** The two dependency maps of a `package.json`, `None` when absent. */
  datatype PackageJson = PackageJson(dependencies: Option<Dict<Value>>, devDependencies: Option<Dict<Value>>)

  /** Reading and parsing `package.json`: the manifest, or a failure of either. */
  datatype ReadResult = Parsed(manifest: PackageJson) | ReadFailed

  /** `{...dependencies, ...devDependencies}`: spreading an absent map adds nothing. */
  function AllDependencies(p: PackageJson): Dict<Value> {
    Merge(Merge([], p.dependencies.GetOr([])), p.devDependencies.GetOr([]))
  }

  /** A development dependency wins over a dependency of the same name, and a
      name in neither reads as `undefined`. */
  lemma AllDependenciesLookup(p: PackageJson, k: string)
    requires WellFormed(p.dependencies.GetOr([])) && WellFormed(p.devDependencies.GetOr([]))
    ensures Get(AllDependencies(p), k) ==
      if k in Keys(p.devDependencies.GetOr([])) then Get(p.devDependencies.value, k)
      else Get(p.dependencies.GetOr([]), k)
  {
    var deps, dev := p.dependencies.GetOr([]), p.devDependencies.GetOr([]);
    if k in Keys(dev) {
      MergeRight(Merge([], deps), dev, k);
    } else {
      MergeLeft(Merge([], deps), dev, k);
      if k in Keys(deps) {
        MergeRight([], deps, k);
      } else {
        MergeLeft([], deps, k);
        LookupNone(deps, k);
      }
    }
  }

  // ------------------------------------------------------- installed features

  /** Some package of the list has a truthy entry in the dependencies. */
  predicate AnyPresent(pkgs: seq<string>, deps: Dict<Value>) {
    exists i | 0 <= i < |pkgs| :: Truthy(Get(deps, pkgs[i]))
  }

  /** The features marked `required`, in table order. */
  function RequiredNames(features: Features): (r: seq<string>)
    ensures forall f :: f in r <==> exists i | 0 <= i < |features| :: features[i].key == f && features[i].value.required
  {
    if features == [] then []
    else
      (if features[0].value.required then [features[0].key] else []) + RequiredNames(features[1..])
  }

  /** The features with a `detect` list of which some package is present, in
      table order. */
  function DetectedNames(features: Features, deps: Dict<Value>): (r: seq<string>)
    ensures forall f :: f in r <==> exists i | 0 <= i < |features| ::
      features[i].key == f && features[i].value.detect.Some? && AnyPresent(features[i].value.detect.value, deps)
  {
    if features == [] then []
    else
      var c := features[0].value;
      (if c.detect.Some? && AnyPresent(c.detect.value, deps) then [features[0].key] else [])
      + DetectedNames(features[1..], deps)
  }

  /** `detectInstalledFeatures()` over a feature table: the required features,
      then the detected ones, each once; `["javascript"]` when the manifest
      cannot be read. */
  function InstalledFeaturesWith(features: Features, read: ReadResult): seq<string> {
    match read
    case ReadFailed => ["javascript"]
    case Parsed(p) => AddAll(AddAll([], RequiredNames(features)), DetectedNames(features, AllDependencies(p)))
  }

  /** `detectInstalledFeatures()`. */
  function DetectInstalledFeatures(read: ReadResult): seq<string> {
    InstalledFeaturesWith(FeaturesConfig, read)
  }

  /** A feature is reported exactly when it is required or detected; none is
      reported twice; the required ones come first, in table order, then the
      detected ones that are not required, in table order. */
  lemma InstalledFeaturesMeaning(features: Features, p: PackageJson)
    requires WellFormed(features)
    ensures var r := InstalledFeaturesWith(features, Parsed(p));
      && NoDuplicates(r)
      && (forall f :: f in r <==> f in RequiredNames(features) || f in DetectedNames(features, AllDependencies(p)))
      && RequiredNames(features) <= r
      && r == RequiredNames(features) + Drop(DetectedNames(features, AllDependencies(p)), RequiredNames(features))
  {
    var required, detected := RequiredNames(features), DetectedNames(features, AllDependencies(p));
    RequiredNamesDistinct(features);
    AddAllDistinct([], required);
    assert [] + required == required;
    DetectedNamesDistinct(features, AllDependencies(p));
    AddAllDrop(required, detected);
  }

  /** The required names of a well-formed table are distinct. */
  lemma {:induction false} RequiredNamesDistinct(features: Features)
    requires WellFormed(features)
    ensures NoDuplicates(RequiredNames(features))
  {
    if features != [] {
      WellFormedTail(features);
      RequiredNamesDistinct(features[1..]);
      KeysCons(features[0], features[1..]);
      assert features == [features[0]] + features[1..];
      NoDuplicatesCons(features[0].key, Keys(features[1..]));
      if features[0].value.required {
        var rest := RequiredNames(features[1..]);
        forall i | 0 <= i < |features[1..]| ensures features[1..][i].key != features[0].key {
          assert Keys(features[1..])[i] == features[1..][i].key;
        }
        NoDuplicatesCons(features[0].key, rest);
      }
    }
  }

  /** The detected names of a well-formed table are distinct. */
  lemma {:induction false} DetectedNamesDistinct(features: Features, deps: Dict<Value>)
    requires WellFormed(features)
    ensures NoDuplicates(DetectedNames(features, deps))
  {
    if features != [] {
      WellFormedTail(features);
      DetectedNamesDistinct(features[1..], deps);
      var c := features[0].value;
      if c.detect.Some? && AnyPresent(c.detect.value, deps) {
        forall i | 0 <= i < |features[1..]| ensures features[1..][i].key != features[0].key {
          assert Keys(features[1..])[i] == features[1..][i].key;
        }
        NoDuplicatesCons(features[0].key, DetectedNames(features[1..], deps));
      }
    }
  }

  /** A manifest that cannot be read or parsed gives `["javascript"]`. */
  lemma InstalledFeaturesOnFailure()
    ensures DetectInstalledFeatures(ReadFailed) == ["javascript"]
  {
  }

  /** A feature is detected exactly when it has a `detect` list and some package
      of it has a truthy entry in the merged dependencies. */
  lemma DetectedMeaning(features: Features, p: PackageJson, f: string)
    requires WellFormed(features)
    ensures f in DetectedNames(features, AllDependencies(p)) <==>
      match Lookup(features, f)
      case None => false
      case Some(c) => c.detect.Some? && AnyPresent(c.detect.value, AllDependencies(p))
  {
    LookupNone(features, f);
    if f in Keys(features) {
      var i :| 0 <= i < |features| && Keys(features)[i] == f;
      LookupAt(features, i);
      forall j | 0 <= j < |features| && features[j].key == f ensures j == i {
        assert Keys(features)[j] == Keys(features)[i];
      }
    } else {
      forall j | 0 <= j < |features| ensures features[j].key != f {
        assert Keys(features)[j] == features[j].key;
      }
    }
  }

  /** With no dependencies at all nothing is detected. */
  lemma {:induction false} DetectedNothing(features: Features)
    ensures DetectedNames(features, []) == []
  {
    if features != [] {
      DetectedNothing(features[1..]);
    }
  }

  /** A table with exactly one required feature requires that one alone. */
  lemma {:induction false} RequiredNamesOne(features: Features, i: nat)
    requires i < |features|
    requires forall j | 0 <= j < |features| :: features[j].value.required <==> j == i
    ensures RequiredNames(features) == [features[i].key]
  {
    var rest := features[1..];
    if i == 0 {
      forall j | 0 <= j < |rest| ensures !rest[j].value.required {
        assert rest[j] == features[j + 1];
      }
      RequiredNone(rest);
    } else {
      forall j | 0 <= j < |rest| ensures rest[j].value.required <==> j == i - 1 {
        assert rest[j] == features[j + 1];
      }
      RequiredNamesOne(rest, i - 1);
    }
  }

  /** A table without required features requires nothing. */
  lemma {:induction false} RequiredNone(features: Features)
    requires forall j | 0 <= j < |features| :: !features[j].value.required
    ensures RequiredNames(features) == []
  {
    if features != [] {
      var rest := features[1..];
      forall j | 0 <= j < |rest| ensures !rest[j].value.required {
        assert rest[j] == features[j + 1];
      }
      RequiredNone(rest);
    }
  }

  /** A manifest without dependencies gives the required features alone. */
  lemma InstalledFeaturesBareWith(features: Features)
    ensures InstalledFeaturesWith(features, Parsed(PackageJson(None, None))) == Unique(RequiredNames(features))
  {
    DetectedNothing(features);
    assert AllDependencies(PackageJson(None, None)) == [];
  }

  /** A manifest without dependencies gives `["javascript"]`. */
  lemma InstalledFeaturesBare()
    ensures DetectInstalledFeatures(Parsed(PackageJson(None, None))) == ["javascript"]
  {
    FeaturesConfigFlags();
    RequiredNamesOne(FeaturesConfig, 1);
    InstalledFeaturesBareWith(FeaturesConfig);
    assert AddAll([], ["javascript"]) == AddAll(["javascript"], ["javascript"][1..]);
  }

  // ----------------------------------------------------------------- TypeScript

  /** `detectTypescriptInProject()`: `typescript` or `@types/node` is truthy in the
      merged dependencies; `false` when the manifest cannot be read. */
  function DetectTypescript(read: ReadResult): bool {
    match read
    case ReadFailed => false
    case Parsed(p) =>
      var all := AllDependencies(p);
      Truthy(Get(all, "typescript")) || Truthy(Get(all, "@types/node"))
  }

  /** TypeScript is detected exactly when the manifest is read and the
      `typescript` feature's own detect list finds a package, that is, exactly
      when `detectInstalledFeatures()` reports the `typescript` feature. A
      manifest that cannot be read detects nothing. */
  lemma TypescriptAsFeature(read: ReadResult)
    ensures DetectTypescript(read) <==>
      read.Parsed? && AnyPresent(FeatureTypescript.detect.value, AllDependencies(read.manifest))
    ensures DetectTypescript(read) <==> "typescript" in DetectInstalledFeatures(read)
  {
    if read.Parsed? {
      var p := read.manifest;
      TypescriptTwoPackages(p);
      FeaturesConfigWellFormed();
      InstalledFeaturesMeaning(FeaturesConfig, p);
      TypescriptNotRequired();
      TypescriptLookup();
      DetectedMeaning(FeaturesConfig, p, "typescript");
    }
  }

  /** `typescript` is not a required feature. */
  lemma TypescriptNotRequired()
    ensures "typescript" !in RequiredNames(FeaturesConfig)
  {
    FeaturesConfigFlags();
  }

  /** The `typescript` entry of the feature table. */
  lemma TypescriptLookup()
    ensures Lookup(FeaturesConfig, "typescript") == Some(FeatureTypescript)
  {
    FeaturesConfigWellFormed();
    assert FeaturesConfig[14].key == "typescript";
    LookupAt(FeaturesConfig, 14);
  }

  /** The two packages `detectTypescriptInProject()` reads are the `typescript`
      feature's detect list. */
  lemma TypescriptTwoPackages(p: PackageJson)
    ensures DetectTypescript(Parsed(p)) <==> AnyPresent(FeatureTypescript.detect.value, AllDependencies(p))
  {
    var all := AllDependencies(p);
    if Truthy(Get(all, "typescript")) {
      assert ["typescript", "@types/node"][0] == "typescript";
    }
    if Truthy(Get(all, "@types/node")) {
      assert ["typescript", "@types/node"][1] == "@types/node";
    }
  }

  // ------------------------------------------------------------------ install

  /** The packages of the selected features, added in selection order to the
      set started from the core dependencies; an unknown feature adds nothing. */
  function AddFeaturePackages(features: Features, acc: seq<string>, selected: seq<string>): (r: seq<string>)
    decreases |selected|
  {
    if selected == [] then acc
    else
      var next := match Lookup(features, selected[0])
        case Some(c) => AddAll(acc, c.packages)
        case None => acc;
      AddFeaturePackages(features, next, selected[1..])
  }

  /** The packages `installDependencies(selected)` installs, in order. */
  function InstallSetWith(features: Features, core: seq<string>, selected: seq<string>): seq<string> {
    AddFeaturePackages(features, AddAll([], core), selected)
  }

  /** The command `installDependencies(selected)` runs. */
  function InstallCommand(selected: seq<string>): string {
    "npm install -D " + Join(InstallSetWith(FeaturesConfig, CoreDependencies, selected), " ")
  }

  /** The packages of the known features among `selected`. */
  predicate Requested(features: Features, selected: seq<string>, pkg: string) {
    exists j | 0 <= j < |selected| ::
      Lookup(features, selected[j]).Some? && pkg in Lookup(features, selected[j]).value.packages
  }

  /** Adding the packages of more features keeps what was there, in place, and
      adds exactly the requested packages, each once. */
  lemma {:induction false} AddFeaturePackagesMeaning(features: Features, acc: seq<string>, selected: seq<string>)
    requires NoDuplicates(acc)
    ensures var r := AddFeaturePackages(features, acc, selected);
      && acc <= r
      && NoDuplicates(r)
      && (forall pkg :: pkg in r <==> pkg in acc || Requested(features, selected, pkg))
    decreases |selected|
  {
    if selected != [] {
      var next := match Lookup(features, selected[0])
        case Some(c) => AddAll(acc, c.packages)
        case None => acc;
      var rest := selected[1..];
      AddFeaturePackagesMeaning(features, next, rest);
      forall pkg ensures Requested(features, selected, pkg) <==>
        (Lookup(features, selected[0]).Some? && pkg in Lookup(features, selected[0]).value.packages)
        || Requested(features, rest, pkg)
      {
        if Requested(features, rest, pkg) {
          var j :| 0 <= j < |rest| && Lookup(features, rest[j]).Some? && pkg in Lookup(features, rest[j]).value.packages;
          assert rest[j] == selected[j + 1];
        }
        if Requested(features, selected, pkg) {
          var j :| 0 <= j < |selected| && Lookup(features, selected[j]).Some? && pkg in Lookup(features, selected[j]).value.packages;
          if j > 0 {
            assert selected[j] == rest[j - 1];
          }
        }
      }
    }
  }

  /** The package lists of the known features among `selected`, in selection
      order. */
  function KnownPackages(features: Features, selected: seq<string>): (r: seq<seq<string>>)
    ensures |r| <= |selected|
  {
    if selected == [] then []
    else
      (match Lookup(features, selected[0])
       case Some(c) => [c.packages]
       case None => [])
      + KnownPackages(features, selected[1..])
  }

  /** Adding the packages feature by feature is adding the concatenation of the
      known features' lists in one run. */
  lemma {:induction false} AddFeaturePackagesAll(features: Features, acc: seq<string>, selected: seq<string>)
    ensures AddFeaturePackages(features, acc, selected) == AddAll(acc, Flatten(KnownPackages(features, selected)))
    decreases |selected|
  {
    if selected != [] {
      var rest := selected[1..];
      match Lookup(features, selected[0])
      case Some(c) =>
        assert KnownPackages(features, selected) == [c.packages] + KnownPackages(features, rest);
        FlattenAppend([c.packages], KnownPackages(features, rest));
        assert Flatten([c.packages]) == c.packages + Flatten([]);
        AddAllAppend(acc, c.packages, Flatten(KnownPackages(features, rest)));
        AddFeaturePackagesAll(features, AddAll(acc, c.packages), rest);
      case None =>
        assert KnownPackages(features, selected) == [] + KnownPackages(features, rest) == KnownPackages(features, rest);
        assert AddFeaturePackages(features, acc, selected) == AddFeaturePackages(features, acc, rest);
        AddFeaturePackagesAll(features, acc, rest);
    }
  }

  /** The install set: the core dependencies first, in order and each once, then
      the packages of the known selected features; every package once, and
      nothing else. An unknown feature is skipped. The whole set is the
      distinct packages of the core list followed by the known features' lists
      in selection order, each in order of first occurrence. */
  lemma InstallSetMeaning(features: Features, core: seq<string>, selected: seq<string>)
    ensures var r := InstallSetWith(features, core, selected);
      && Unique(core) <= r
      && NoDuplicates(r)
      && (forall pkg :: pkg in r <==> pkg in core || Requested(features, selected, pkg))
      && r == Unique(core + Flatten(KnownPackages(features, selected)))
  {
    AddFeaturePackagesMeaning(features, AddAll([], core), selected);
    AddFeaturePackagesAll(features, AddAll([], core), selected);
    AddAllAppend([], core, Flatten(KnownPackages(features, selected)));
  }

  // --------------------------------------------------------------- validation

  /** The result of `validateFeatureSelection`. */
  datatype Validation = Validation(errors: seq<string>, isValid: bool)

  /** The message for a feature that needs TypeScript. */
  function TypescriptError(feature: string): string {
    feature + TypescriptErrorText
  }

  /** The fixed part of that message. */
  const TypescriptErrorText := " requires TypeScript, but TypeScript is not detected in your project. Please install TypeScript first."

  /** The loop over the selection, as the features it reports: each feature
      that needs TypeScript when TypeScript is absent. Reading
      `requiresTypescript` of an unknown feature throws, which ends the loop
      with a `Failure` naming that feature. */
  function Offenders(features: Features, hasTypescript: bool, selected: seq<string>): Result<seq<string>, string>
    decreases |selected|
  {
    if selected == [] then Success([])
    else match Lookup(features, selected[0])
      case None => Failure(selected[0])
      case Some(c) =>
        match Offenders(features, hasTypescript, selected[1..])
        case Failure(f) => Failure(f)
        case Success(rest) =>
          Success((if c.requiresTypescript && !hasTypescript then [selected[0]] else []) + rest)
  }

  /** The message of each feature, in order. */
  function Messages(fs: seq<string>): (r: seq<string>)
    ensures |r| == |fs|
    ensures forall i | 0 <= i < |fs| :: r[i] == TypescriptError(fs[i])
  {
    if fs == [] then [] else [TypescriptError(fs[0])] + Messages(fs[1..])
  }

  /** `validateFeatureSelection(selected)` over a feature table; a rejected
      promise is a `Failure` naming the first unknown feature. */
  function ValidateWith(features: Features, read: ReadResult, selected: seq<string>): Result<Validation, string> {
    match Offenders(features, DetectTypescript(read), selected)
    case Failure(f) => Failure(f)
    case Success(fs) => Success(Validation(Messages(fs), |fs| == 0))
  }

  /** The selected features that need TypeScript, in selection order. */
  function NeedingTypescript(features: Features, selected: seq<string>): (r: seq<string>)
    ensures forall f :: f in r <==> f in selected && Lookup(features, f).Some? && Lookup(features, f).value.requiresTypescript
  {
    if selected == [] then []
    else
      (if Lookup(features, selected[0]).Some? && Lookup(features, selected[0]).value.requiresTypescript then [selected[0]] else [])
      + NeedingTypescript(features, selected[1..])
  }

  /** Every selected feature is in the table. */
  predicate AllKnown(features: Features, selected: seq<string>) {
    forall j | 0 <= j < |selected| :: Lookup(features, selected[j]).Some?
  }

  /** A selection is all known exactly when its head is known and its tail is. */
  lemma AllKnownCons(features: Features, selected: seq<string>)
    requires selected != []
    ensures AllKnown(features, selected) <==> Lookup(features, selected[0]).Some? && AllKnown(features, selected[1..])
  {
    var rest := selected[1..];
    if Lookup(features, selected[0]).Some? && AllKnown(features, rest) {
      forall j | 0 <= j < |selected| ensures Lookup(features, selected[j]).Some? {
        if j > 0 {
          assert selected[j] == rest[j - 1];
        }
      }
    }
    if AllKnown(features, selected) {
      forall j | 0 <= j < |rest| ensures Lookup(features, rest[j]).Some? {
        assert rest[j] == selected[j + 1];
      }
    }
  }

  /** The loop completes exactly when every selected feature is known, and then
      reports the features that need TypeScript when it is absent and none when
      it is present. */
  lemma {:induction false} OffendersMeaning(features: Features, hasTypescript: bool, selected: seq<string>)
    ensures Offenders(features, hasTypescript, selected).Success? <==> AllKnown(features, selected)
    ensures Offenders(features, hasTypescript, selected).Success? ==>
      Offenders(features, hasTypescript, selected).value ==
        if hasTypescript then [] else NeedingTypescript(features, selected)
    decreases |selected|
  {
    if selected != [] {
      AllKnownCons(features, selected);
      OffendersMeaning(features, hasTypescript, selected[1..]);
    }
  }

  /** Validation succeeds exactly when every selected feature is known; then
      there is one error per selected feature that needs TypeScript when
      TypeScript is absent, in selection order, none when it is present, and the
      selection is valid exactly when there are no errors. */
  lemma ValidateMeaning(features: Features, read: ReadResult, selected: seq<string>)
    ensures ValidateWith(features, read, selected).Success? <==> AllKnown(features, selected)
    ensures ValidateWith(features, read, selected).Success? ==>
      var v := ValidateWith(features, read, selected).value;
      && (v.isValid <==> v.errors == [])
      && v.errors == (if DetectTypescript(read) then [] else Messages(NeedingTypescript(features, selected)))
  {
    OffendersMeaning(features, DetectTypescript(read), selected);
  }

  /** Validation throws on a feature the table lacks, while the install set
      skips it. */
  lemma UnknownFeature(features: Features, read: ReadResult, core: seq<string>, f: string)
    requires Lookup(features, f).None?
    ensures ValidateWith(features, read, [f]).Failure?
    ensures InstallSetWith(features, core, [f]) == Unique(core)
  {
    var acc := AddAll([], core);
    assert [f][1..] == [];
    assert AddFeaturePackages(features, acc, [f]) == AddFeaturePackages(features, acc, []);
  }

  // ----------------------------------------------------------- installed check

  /** What `npm ls ... --json` gave: the parsed output, or a failure of the
      command or of the parse. */
  datatype NpmList = Listed(json: Value) | ListFailed

  /** The result of `checkEslintInstalled` and `checkConfigInstalled`. */
  datatype Installed = Installed(isInstalled: bool, version: Value)

  /** JavaScript `a || b`: `a` when truthy, else `b`. */
  function Or(a: Value, b: Value): Value {
    if Truthy(a) then a else b
  }

  /** The version of `name` that `npm ls` reports, under `dependencies` first
      and `devDependencies` second, `null` when neither is truthy. Reading a
      property of a `null` or `undefined` listing throws. */
  function CheckInstalled(name: string, out: NpmList): Installed {
    match out
    case ListFailed => Installed(false, Null)
    case Listed(json) =>
      if json.Null? || json.Undefined? then Installed(false, Null)
      else
        var version := Or(Or(Prop(Prop(Prop(json, "dependencies"), name), "version"),
                             Prop(Prop(Prop(json, "devDependencies"), name), "version")), Null);
        Installed(Truthy(version), version)
  }

  /** `checkEslintInstalled()`. */
  function CheckEslintInstalled(out: NpmList): Installed {
    CheckInstalled("eslint", out)
  }

  /** `checkConfigInstalled()`. */
  function CheckConfigInstalled(out: NpmList): Installed {
    CheckInstalled("@elsikora/eslint-config", out)
  }

  /** The version reported under `dependencies`, if any, else the one under
      `devDependencies`. */
  function ListedVersion(json: Value, name: string): Value {
    var dep := Prop(Prop(Prop(json, "dependencies"), name), "version");
    var dev := Prop(Prop(Prop(json, "devDependencies"), name), "version");
    if Truthy(dep) then dep else if Truthy(dev) then dev else Null
  }

  /** The package counts as installed exactly when a truthy version is found;
      otherwise the version is `null`. A failed or empty listing reports not
      installed; any other listing reports the version found under
      `dependencies`, else under `devDependencies`. */
  lemma CheckInstalledMeaning(name: string, out: NpmList)
    ensures var r := CheckInstalled(name, out);
      && (r.isInstalled <==> Truthy(r.version))
      && (!r.isInstalled ==> r.version == Null)
      && (out.ListFailed? ==> r == Installed(false, Null))
      && (out.Listed? && !out.json.Null? && !out.json.Undefined? ==> r.version == ListedVersion(out.json, name))
      && (out.Listed? && (out.json.Null? || out.json.Undefined?) ==> r == Installed(false, Null))
  {
  }
}
