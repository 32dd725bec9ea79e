/** `ConfigFactory`: composes the final configuration from the feature flags a
    user switches on. Each selected flag names a config module; the modules are
    imported, a failed import is reported as a warning and contributes nothing,
    and the fragment lists are concatenated in the order the flags appear in the
    options object. The dynamic imports are a parameter `load`, and the
    `console.warn` calls are collected in the outcome. */
module ConfigFactory {
  import opened Wrappers
  import opened Seqs
  import opened Dicts
  import opened Js
  import opened LintConfig

  /** `OPTIONS_TO_CONFIG_MAP`: option flag to config name, in declaration order. */
  const OptionsToConfigMap: Dict<string> := [
    Entry("withCheckFile", "check-file"),
    Entry("withJavascript", "javascript"),
    Entry("withJson", "json"),
    Entry("withNest", "nest"),
    Entry("withNode", "node"),
    Entry("withPackageJson", "package-json"),
    Entry("withPerfectionist", "perfectionist"),
    Entry("withPrettier", "prettier"),
    Entry("withReact", "react"),
    Entry("withRegexp", "regexp"),
    Entry("withSonar", "sonar"),
    Entry("withStylistic", "stylistic"),
    Entry("withTailwindCss", "tailwind-css"),
    Entry("withTypeorm", "typeorm"),
    Entry("withTypescript", "typescript"),
    Entry("withUnicorn", "unicorn"),
    Entry("withYaml", "yaml")
  ]

  /** The names `CONFIG_MAPPING` holds a loader for, in declaration order. */
  const ConfigMapping: seq<string> := [
    "check-file", "javascript", "json", "nest", "node", "package-json",
    "perfectionist", "prettier", "react", "regexp", "sonar", "stylistic",
    "tailwind-css", "typeorm", "typescript", "unicorn", "yaml"
  ]

  /** What importing one config module gives: its default export, or the error
      the import rejects with. */
  datatype LoadResult = Loaded(configs: seq<Config>) | Failed(error: Value)

  /** The dynamic import of the module behind a config name. */
  type Loader = string -> LoadResult

  /** Why a config contributed nothing: its import failed, or there is no loader
      under its name (calling the missing loader throws a `TypeError`). */
  datatype LoadError = ImportFailed(error: Value) | NoLoader

  /** One `console.warn` call: the message and the error logged with it. */
  datatype Warning = Warning(message: string, cause: LoadError)

  /** What `createConfig` resolves to, with the warnings logged on the way. */
  datatype Outcome = Outcome(configs: seq<Config>, warnings: seq<Warning>)

  /** The warning logged when the config `name` cannot be loaded. */
  function WarningFor(name: string, cause: LoadError): Warning {
    Warning("Optional dependency for " + name + " config is not installed:", cause)
  }

  /** The two tables of the factory: flags to config names, and the names that
      have a loader. */
  datatype Tables = Tables(flags: Dict<string>, loaders: seq<string>)

  /** The tables as shipped. */
  const Shipped: Tables := Tables(OptionsToConfigMap, ConfigMapping)

  /** Tables that agree: no flag twice, one loader per flag in the same order, no
      loader twice, and no empty config name. */
  predicate Consistent(tb: Tables) {
    && WellFormed(tb.flags)
    && |tb.flags| == |tb.loaders|
    && (forall i | 0 <= i < |tb.flags| :: tb.flags[i].value == tb.loaders[i] && tb.loaders[i] != "")
    && NoDuplicates(tb.loaders)
  }

  // ------------------------------------------------------------- the tables

  /** Both tables have seventeen entries, the loader table lists the flag
      table's names in the same order, and no name is empty. */
  lemma ShippedAligned()
    ensures |OptionsToConfigMap| == 17 && |ConfigMapping| == 17
    ensures forall i | 0 <= i < 17 :: OptionsToConfigMap[i].value == ConfigMapping[i] && ConfigMapping[i] != ""
  {
  }

  /** No flag occurs twice. */
  lemma ShippedFlagsDistinct()
    ensures WellFormed(OptionsToConfigMap)
  {
    assert forall i, j | 0 <= i < j < 17 :: OptionsToConfigMap[i].key != OptionsToConfigMap[j].key;
    WellFormedAt(OptionsToConfigMap);
  }

  /** No config name occurs twice. */
  lemma ShippedLoadersDistinct()
    ensures NoDuplicates(ConfigMapping)
  {
    assert forall i, j | 0 <= i < j < 17 :: ConfigMapping[i] != ConfigMapping[j];
  }

  /** The shipped tables agree. */
  lemma ShippedConsistent()
    ensures Consistent(Shipped)
  {
    ShippedAligned();
    ShippedFlagsDistinct();
    ShippedLoadersDistinct();
  }

  /** In agreeing tables every flag names a config that has a loader, and no two
      flags name the same config. */
  lemma FlagNamesInjective(tb: Tables)
    requires Consistent(tb)
    ensures forall i | 0 <= i < |tb.flags| :: tb.flags[i].value in tb.loaders
    ensures forall i, j | 0 <= i < |tb.flags| && 0 <= j < |tb.flags| ::
      tb.flags[i].value == tb.flags[j].value ==> i == j
  {
  }

  // ------------------------------------------------------------ loadConfig

  /** `loadConfig`: the default export of the named module, or `[]` and one
      warning naming the config when there is no loader or the import fails. */
  function LoadConfig(tb: Tables, load: Loader, name: string): (r: Outcome)
    ensures |r.warnings| <= 1
    ensures r.warnings == [] <==> name in tb.loaders && load(name).Loaded?
    ensures r.warnings == [] ==> r.configs == load(name).configs
    ensures r.warnings != [] ==> r.configs == [] && r.warnings[0] == WarningFor(name, r.warnings[0].cause)
  {
    if name !in tb.loaders then Outcome([], [WarningFor(name, NoLoader)])
    else match load(name)
      case Loaded(cs) => Outcome(cs, [])
      case Failed(e) => Outcome([], [WarningFor(name, ImportFailed(e))])
  }

  // ----------------------------------------------------------- createConfig

  /** The config name an options entry selects: its flag's name when the value is
      exactly `true` and the flag is known. */
  function Selection(tb: Tables, e: Entry<Value>): Option<string> {
    match Lookup(tb.flags, e.key)
    case Some(n) => if e.value == Bool(true) && Truthy(Str(n)) then Some(n) else None
    case None => None
  }

  /** The filter and map over `Object.entries(options)`: the selected config
      names, in entry order. */
  function SelectedNames(tb: Tables, options: Dict<Value>): seq<string> {
    if options == [] then []
    else
      (match Selection(tb, options[0]) case Some(n) => [n] case None => [])
      + SelectedNames(tb, options[1..])
  }

  /** Loading every selected name and joining the results in the same order, as
      `Promise.all` followed by `flat` does whatever order the imports settle in. */
  function LoadAll(tb: Tables, load: Loader, names: seq<string>): Outcome {
    if names == [] then Outcome([], [])
    else
      var first := LoadConfig(tb, load, names[0]);
      var rest := LoadAll(tb, load, names[1..]);
      Outcome(first.configs + rest.configs, first.warnings + rest.warnings)
  }

  /** `createConfig(options)` over given tables. */
  function CreateConfigWith(tb: Tables, load: Loader, options: Dict<Value>): Outcome {
    LoadAll(tb, load, SelectedNames(tb, options))
  }

  /** `createConfig(options)` with the shipped tables. */
  function CreateConfig(load: Loader, options: Dict<Value>): Outcome {
    CreateConfigWith(Shipped, load, options)
  }

  /** An entry selects a name exactly when its value is `true` and its key is a
      flag, and the name is that flag's, which has a loader. */
  lemma SelectionMeans(tb: Tables, e: Entry<Value>)
    requires Consistent(tb)
    ensures Selection(tb, e).Some? <==> e.value == Bool(true) && e.key in Keys(tb.flags)
    ensures Selection(tb, e).Some? ==> Lookup(tb.flags, e.key) == Selection(tb, e)
    ensures Selection(tb, e).Some? ==> Selection(tb, e).value in tb.loaders
  {
    LookupNone(tb.flags, e.key);
    if e.key in Keys(tb.flags) {
      var i :| 0 <= i < |tb.flags| && tb.flags[i].key == e.key;
      LookupAt(tb.flags, i);
    }
  }

  /** The names selected from a concatenation of entries are those of each part,
      in order: a flag's contribution sits where the flag sits in the options. */
  lemma {:induction false} SelectedNamesAppend(tb: Tables, a: Dict<Value>, b: Dict<Value>)
    ensures SelectedNames(tb, a + b) == SelectedNames(tb, a) + SelectedNames(tb, b)
  {
    if a == [] {
      assert a + b == b;
    } else {
      assert (a + b)[1..] == a[1..] + b;
      SelectedNamesAppend(tb, a[1..], b);
    }
  }

  /** A name is selected exactly when some entry selects it. */
  lemma {:induction false} SelectedNamesMembers(tb: Tables, options: Dict<Value>, n: string)
    ensures n in SelectedNames(tb, options) <==> exists i | 0 <= i < |options| :: Selection(tb, options[i]) == Some(n)
  {
    if options != [] {
      var rest := options[1..];
      SelectedNamesMembers(tb, rest, n);
      if exists i | 1 <= i < |options| :: Selection(tb, options[i]) == Some(n) {
        var i :| 1 <= i < |options| && Selection(tb, options[i]) == Some(n);
        assert rest[i - 1] == options[i];
      }
      if exists i | 0 <= i < |rest| :: Selection(tb, rest[i]) == Some(n) {
        var i :| 0 <= i < |rest| && Selection(tb, rest[i]) == Some(n);
        assert rest[i] == options[i + 1];
      }
    }
  }

  /** Every selected name has a loader, so with agreeing tables only a failed
      import ever warns. */
  lemma {:induction false} SelectedNamesHaveLoaders(tb: Tables, options: Dict<Value>)
    requires Consistent(tb)
    ensures forall j | 0 <= j < |SelectedNames(tb, options)| :: SelectedNames(tb, options)[j] in tb.loaders
  {
    if options != [] {
      SelectedNamesHaveLoaders(tb, options[1..]);
      SelectionMeans(tb, options[0]);
    }
  }

  /** Loading a concatenation of names loads each part, in order. */
  lemma {:induction false} LoadAllAppend(tb: Tables, load: Loader, a: seq<string>, b: seq<string>)
    ensures LoadAll(tb, load, a + b).configs == LoadAll(tb, load, a).configs + LoadAll(tb, load, b).configs
    ensures LoadAll(tb, load, a + b).warnings == LoadAll(tb, load, a).warnings + LoadAll(tb, load, b).warnings
  {
    if a == [] {
      assert a + b == b;
    } else {
      assert (a + b)[1..] == a[1..] + b;
      LoadAllAppend(tb, load, a[1..], b);
      var first := LoadConfig(tb, load, a[0]);
      AppendAssoc(first.configs, LoadAll(tb, load, a[1..]).configs, LoadAll(tb, load, b).configs);
      AppendAssoc(first.warnings, LoadAll(tb, load, a[1..]).warnings, LoadAll(tb, load, b).warnings);
    }
  }

  /** What each name contributes, in order. */
  function Contributions(tb: Tables, load: Loader, names: seq<string>): (r: seq<seq<Config>>)
    ensures |r| == |names|
    ensures forall i | 0 <= i < |names| :: r[i] == LoadConfig(tb, load, names[i]).configs
  {
    if names == [] then [] else [LoadConfig(tb, load, names[0]).configs] + Contributions(tb, load, names[1..])
  }

  /** The names whose config contributes nothing, in order. */
  function Failures(tb: Tables, load: Loader, names: seq<string>): seq<string> {
    if names == [] then []
    else (if LoadConfig(tb, load, names[0]).warnings != [] then [names[0]] else []) + Failures(tb, load, names[1..])
  }

  /** The configs are the concatenation of what each name contributes, a failed
      one contributing `[]`, and the warnings name exactly the failed configs,
      one each, in order. */
  lemma {:induction false} LoadAllFlattens(tb: Tables, load: Loader, names: seq<string>)
    ensures LoadAll(tb, load, names).configs == Flatten(Contributions(tb, load, names))
    ensures |LoadAll(tb, load, names).warnings| == |Failures(tb, load, names)|
    ensures forall j | 0 <= j < |Failures(tb, load, names)| ::
      LoadAll(tb, load, names).warnings[j] == WarningFor(Failures(tb, load, names)[j], LoadAll(tb, load, names).warnings[j].cause)
  {
    if names != [] {
      LoadAllFlattens(tb, load, names[1..]);
      var first := LoadConfig(tb, load, names[0]);
      var ws, rest := LoadAll(tb, load, names).warnings, LoadAll(tb, load, names[1..]).warnings;
      var fs, fs' := Failures(tb, load, names), Failures(tb, load, names[1..]);
      if first.warnings != [] {
        assert fs == [names[0]] + fs';
        assert ws == [first.warnings[0]] + rest;
        forall j | 1 <= j < |fs| ensures ws[j] == WarningFor(fs[j], ws[j].cause) {
          assert ws[j] == rest[j - 1] && fs[j] == fs'[j - 1];
        }
      } else {
        assert fs == fs' && ws == rest;
      }
    }
  }

  /** The order of the fragments follows the order of the option entries: the
      result for concatenated options is the result for each part, in order. */
  lemma CreateConfigAppend(load: Loader, a: Dict<Value>, b: Dict<Value>)
    ensures CreateConfig(load, a + b).configs == CreateConfig(load, a).configs + CreateConfig(load, b).configs
    ensures CreateConfig(load, a + b).warnings == CreateConfig(load, a).warnings + CreateConfig(load, b).warnings
  {
    SelectedNamesAppend(Shipped, a, b);
    LoadAllAppend(Shipped, load, SelectedNames(Shipped, a), SelectedNames(Shipped, b));
  }

  /** With agreeing tables, options with no entry that is exactly `true` for a
      known flag, in particular empty options, give `[]` and no warning. */
  lemma {:induction false} NothingSelected(tb: Tables, load: Loader, options: Dict<Value>)
    requires Consistent(tb)
    requires forall i | 0 <= i < |options| :: options[i].value != Bool(true) || options[i].key !in Keys(tb.flags)
    ensures SelectedNames(tb, options) == []
    ensures CreateConfigWith(tb, load, options) == Outcome([], [])
  {
    if options != [] {
      SelectionMeans(tb, options[0]);
      var rest := options[1..];
      forall i | 0 <= i < |rest| ensures rest[i].value != Bool(true) || rest[i].key !in Keys(tb.flags) {
        assert rest[i] == options[i + 1];
      }
      NothingSelected(tb, load, rest);
    }
  }

  /** Options that switch on no known flag, in particular `{}`, give `[]` and no
      warning. */
  lemma CreateConfigNothingSelected(load: Loader, options: Dict<Value>)
    requires forall i | 0 <= i < |options| :: options[i].value != Bool(true) || options[i].key !in Keys(OptionsToConfigMap)
    ensures CreateConfig(load, options) == Outcome([], [])
  {
    ShippedConsistent();
    NothingSelected(Shipped, load, options);
  }

  /** One selected flag: the default export of its module, or `[]` and one
      warning naming the config when the import fails. */
  lemma SelectOne(tb: Tables, load: Loader, i: nat)
    requires Consistent(tb) && i < |tb.flags|
    ensures var n := tb.flags[i].value;
      && (load(n).Loaded? ==> CreateConfigWith(tb, load, [Entry(tb.flags[i].key, Bool(true))]) == Outcome(load(n).configs, []))
      && (load(n).Failed? ==>
            CreateConfigWith(tb, load, [Entry(tb.flags[i].key, Bool(true))]) == Outcome([], [WarningFor(n, ImportFailed(load(n).error))]))
  {
    var e, n := Entry(tb.flags[i].key, Bool(true)), tb.flags[i].value;
    LookupAt(tb.flags, i);
    SelectionMeans(tb, e);
    assert SelectedNames(tb, [e]) == [n] by {
      assert [e][1..] == [];
    }
    var first := LoadConfig(tb, load, n);
    assert LoadAll(tb, load, [n]) == Outcome(first.configs + [], first.warnings + []) by {
      assert [n][1..] == [];
    }
  }

  /** Each of the seventeen flags, switched on alone, gives the default export
      of its module, or `[]` and one warning naming its config. */
  lemma CreateConfigOne(load: Loader, i: nat)
    requires i < |OptionsToConfigMap|
    ensures var n := OptionsToConfigMap[i].value;
      && (load(n).Loaded? ==> CreateConfig(load, [Entry(OptionsToConfigMap[i].key, Bool(true))]) == Outcome(load(n).configs, []))
      && (load(n).Failed? ==>
            CreateConfig(load, [Entry(OptionsToConfigMap[i].key, Bool(true))]) == Outcome([], [WarningFor(n, ImportFailed(load(n).error))]))
  {
    ShippedConsistent();
    SelectOne(Shipped, load, i);
  }
}
