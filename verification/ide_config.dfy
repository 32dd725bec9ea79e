/** The editor set-up of the wizard: the VSCode settings (which languages ESLint
    validates, fix on save) and the WebStorm files (which extensions ESLint
    lints, Prettier on or off). Reading and writing the files is left out: the
    existing settings come in as a parameter, and the WebStorm result is the
    list of files with their contents. */
module IdeConfig {
  import opened Wrappers
  import opened Seqs
  import opened Text
  import opened Dicts
  import opened Js

  // ------------------------------------------------------------ feature blocks

  /** One `if (features.includes(feature))` block, or one
      `if (!features.includes(feature))` block: the feature it tests and the
      strings it adds or deletes. */
  datatype FeatureGroup = FeatureGroup(feature: string, members: seq<string>)

  /** The member lists of the blocks whose feature is selected (`selected`) or
      not selected (`!selected`), in block order. */
  function Chosen(groups: seq<FeatureGroup>, features: seq<string>, selected: bool): seq<seq<string>> {
    if groups == [] then []
    else
      (if (groups[0].feature in features) == selected then [groups[0].members] else [])
      + Chosen(groups[1..], features, selected)
  }

  /** Some block whose feature is selected (or not, by `selected`) lists `x`. */
  predicate Owned(groups: seq<FeatureGroup>, features: seq<string>, selected: bool, x: string) {
    exists j | 0 <= j < |groups| :: (groups[j].feature in features) == selected && x in groups[j].members
  }

  /** A string is among the chosen lists exactly when a chosen block lists it. */
  lemma {:induction false} ChosenMembers(groups: seq<FeatureGroup>, features: seq<string>, selected: bool, x: string)
    ensures x in Flatten(Chosen(groups, features, selected)) <==> Owned(groups, features, selected, x)
  {
    if groups != [] {
      var rest := groups[1..];
      var here := if (groups[0].feature in features) == selected then [groups[0].members] else [];
      ChosenMembers(rest, features, selected, x);
      FlattenAppend(here, Chosen(rest, features, selected));
      assert Flatten(here) == (if (groups[0].feature in features) == selected then groups[0].members else []) by {
        if (groups[0].feature in features) == selected {
          assert here[1..] == [];
        }
      }
      if Owned(rest, features, selected, x) {
        var j :| 0 <= j < |rest| && (rest[j].feature in features) == selected && x in rest[j].members;
        assert groups[j + 1] == rest[j];
      }
      if Owned(groups, features, selected, x) {
        var j :| 0 <= j < |groups| && (groups[j].feature in features) == selected && x in groups[j].members;
        if j > 0 {
          assert rest[j - 1] == groups[j];
        }
      }
    }
  }

  // ------------------------------------------------------------------ VSCode

  /** The blocks of `setupVSCodeConfig` and the languages each adds. */
  const JavascriptLanguages := FeatureGroup("javascript", ["javascript", "javascriptreact"])
  const TypescriptLanguages := FeatureGroup("typescript", ["typescript", "typescriptreact"])
  const JsonLanguages := FeatureGroup("json", ["json", "jsonc"])
  const YamlLanguages := FeatureGroup("yaml", ["yaml", "yml"])
  const ReactLanguages := FeatureGroup("react", ["javascriptreact", "typescriptreact"])

  /** The blocks, in the order they run. */
  const LanguageGroups: seq<FeatureGroup> :=
    [JavascriptLanguages, TypescriptLanguages, JsonLanguages, YamlLanguages, ReactLanguages]

  /** Runs the blocks in order over the language set built so far. */
  function AddGroups(acc: seq<string>, groups: seq<FeatureGroup>, features: seq<string>): seq<string>
    decreases |groups|
  {
    if groups == [] then acc
    else
      var next := if groups[0].feature in features then AddAll(acc, groups[0].members) else acc;
      AddGroups(next, groups[1..], features)
  }

  /** The language set of `setupVSCodeConfig` over a table of blocks. */
  function LanguagesWith(groups: seq<FeatureGroup>, features: seq<string>): seq<string> {
    AddGroups([], groups, features)
  }

  /** The language set of `setupVSCodeConfig`. */
  function Languages(features: seq<string>): seq<string> {
    LanguagesWith(LanguageGroups, features)
  }

  /** Running the blocks adds the selected lists, concatenated, to the set. */
  lemma {:induction false} AddGroupsFlattens(acc: seq<string>, groups: seq<FeatureGroup>, features: seq<string>)
    ensures AddGroups(acc, groups, features) == AddAll(acc, Flatten(Chosen(groups, features, true)))
    decreases |groups|
  {
    if groups != [] {
      var g := groups[0];
      var rest := Chosen(groups[1..], features, true);
      var next := if g.feature in features then AddAll(acc, g.members) else acc;
      AddGroupsFlattens(next, groups[1..], features);
      if g.feature in features {
        assert Chosen(groups, features, true) == [g.members] + rest;
        assert ([g.members] + rest)[1..] == rest;
        AddAllAppend(acc, g.members, Flatten(rest));
      } else {
        assert [] + rest == rest;
        assert Chosen(groups, features, true) == rest;
      }
    }
  }

  /** The language set is the distinct languages of the selected blocks, in
      order of first occurrence: one entry per language, and a language is in
      it exactly when a selected block lists it. */
  lemma LanguagesMeaning(groups: seq<FeatureGroup>, features: seq<string>)
    ensures LanguagesWith(groups, features) == Unique(Flatten(Chosen(groups, features, true)))
    ensures NoDuplicates(LanguagesWith(groups, features))
    ensures forall l :: l in LanguagesWith(groups, features) <==> Owned(groups, features, true, l)
  {
    AddGroupsFlattens([], groups, features);
    forall l ensures l in LanguagesWith(groups, features) <==> Owned(groups, features, true, l) {
      ChosenMembers(groups, features, true, l);
    }
  }

  /** A selected block adds all of its languages. */
  lemma SelectedGroupAdds(groups: seq<FeatureGroup>, features: seq<string>, j: nat)
    requires j < |groups| && groups[j].feature in features
    ensures forall l | l in groups[j].members :: l in LanguagesWith(groups, features)
  {
    LanguagesMeaning(groups, features);
  }

  /** JavaScript brings JavaScript and its React dialect. */
  lemma LanguagesJavascript(features: seq<string>)
    requires "javascript" in features
    ensures "javascript" in Languages(features) && "javascriptreact" in Languages(features)
  {
    assert LanguageGroups[0] == JavascriptLanguages;
    SelectedGroupAdds(LanguageGroups, features, 0);
  }

  /** TypeScript brings TypeScript and its React dialect. */
  lemma LanguagesTypescript(features: seq<string>)
    requires "typescript" in features
    ensures "typescript" in Languages(features) && "typescriptreact" in Languages(features)
  {
    assert LanguageGroups[1] == TypescriptLanguages;
    SelectedGroupAdds(LanguageGroups, features, 1);
  }

  /** JSON brings JSON and JSON with comments. */
  lemma LanguagesJson(features: seq<string>)
    requires "json" in features
    ensures "json" in Languages(features) && "jsonc" in Languages(features)
  {
    assert LanguageGroups[2] == JsonLanguages;
    SelectedGroupAdds(LanguageGroups, features, 2);
  }

  /** YAML brings `yaml` and `yml`. */
  lemma LanguagesYaml(features: seq<string>)
    requires "yaml" in features
    ensures "yaml" in Languages(features) && "yml" in Languages(features)
  {
    assert LanguageGroups[3] == YamlLanguages;
    SelectedGroupAdds(LanguageGroups, features, 3);
  }

  /** React brings both React dialects. */
  lemma LanguagesReact(features: seq<string>)
    requires "react" in features
    ensures "javascriptreact" in Languages(features) && "typescriptreact" in Languages(features)
  {
    assert LanguageGroups[4] == ReactLanguages;
    SelectedGroupAdds(LanguageGroups, features, 4);
  }

  /** One entry of `eslint.validate`. */
  function ValidateEntry(language: string): Value {
    Obj([Entry("language", Str(language)), Entry("autoFix", Bool(true))])
  }

  /** `Array.from(languages).map(...)`. */
  function ValidateEntries(languages: seq<string>): (r: seq<Value>)
    ensures |r| == |languages|
    ensures forall i | 0 <= i < |r| :: r[i] == ValidateEntry(languages[i])
  {
    if languages == [] then [] else [ValidateEntry(languages[0])] + ValidateEntries(languages[1..])
  }

  /** The value written under `editor.codeActionsOnSave`. */
  const CodeActionsOnSave: Value := Obj([Entry("source.fixAll.eslint", Bool(true))])

  /** The existing `.vscode/settings.json`: its parsed object, or nothing when
      the file is missing or does not parse. */
  datatype SettingsFile = SettingsParsed(settings: Dict<Value>) | SettingsMissing

  /** The settings the wizard starts from: `{}` when there is no file to read. */
  function Existing(existing: SettingsFile): Dict<Value> {
    if existing.SettingsParsed? then existing.settings else []
  }

  /** The settings `setupVSCodeConfig` writes back. */
  function VSCodeSettings(existing: SettingsFile, features: seq<string>): Dict<Value> {
    var withValidate := Set(Existing(existing), "eslint.validate", Arr(ValidateEntries(Languages(features))));
    Set(withValidate, "editor.codeActionsOnSave", CodeActionsOnSave)
  }

  /** The two fields of an `eslint.validate` entry. */
  lemma ValidateEntryFields(language: string)
    ensures Prop(ValidateEntry(language), "language") == Str(language)
    ensures Prop(ValidateEntry(language), "autoFix") == Bool(true)
  {
    var first, second := Entry("language", Str(language)), Entry("autoFix", Bool(true));
    assert [first, second] == [first] + ([second] + []);
    assert "language"[0] != "autoFix"[0];
    LookupCons(first, [second] + [], "autoFix");
    LookupCons(second, [], "autoFix");
  }

  /** Every key other than the two ESLint keys keeps its value. */
  lemma VSCodeSettingsKeepsOthers(existing: SettingsFile, features: seq<string>, k: string)
    requires k != "eslint.validate" && k != "editor.codeActionsOnSave"
    ensures Lookup(VSCodeSettings(existing, features), k) == Lookup(Existing(existing), k)
  {
    var v := Arr(ValidateEntries(Languages(features)));
    var mid := Set(Existing(existing), "eslint.validate", v);
    SetLookup(mid, "editor.codeActionsOnSave", CodeActionsOnSave, k);
    SetLookup(Existing(existing), "eslint.validate", v, k);
  }

  /** The existing keys keep their order, and at most the two ESLint keys are
      added after them. */
  lemma VSCodeSettingsKeys(existing: SettingsFile, features: seq<string>)
    ensures Keys(Existing(existing)) <= Keys(VSCodeSettings(existing, features))
    ensures forall k | k in Keys(VSCodeSettings(existing, features)) ::
      k in Keys(Existing(existing)) || k == "eslint.validate" || k == "editor.codeActionsOnSave"
  {
    var v := Arr(ValidateEntries(Languages(features)));
    var mid := Set(Existing(existing), "eslint.validate", v);
    SetKeys(Existing(existing), "eslint.validate", v);
    SetKeys(mid, "editor.codeActionsOnSave", CodeActionsOnSave);
  }

  /** `eslint.validate` holds one `{language, autoFix: true}` entry per language
      of the set, in its order, and fixing on save is switched on. */
  lemma VSCodeSettingsEslint(existing: SettingsFile, features: seq<string>)
    ensures var r := VSCodeSettings(existing, features);
      var langs := Languages(features);
      && Get(r, "editor.codeActionsOnSave") == CodeActionsOnSave
      && Get(r, "eslint.validate").Arr?
      && |Get(r, "eslint.validate").items| == |langs|
      && (forall i | 0 <= i < |langs| ::
            && Prop(Get(r, "eslint.validate").items[i], "language") == Str(langs[i])
            && Prop(Get(r, "eslint.validate").items[i], "autoFix") == Bool(true))
  {
    var langs := Languages(features);
    var v := Arr(ValidateEntries(langs));
    var mid := Set(Existing(existing), "eslint.validate", v);
    SetLookup(mid, "editor.codeActionsOnSave", CodeActionsOnSave, "editor.codeActionsOnSave");
    SetLookup(mid, "editor.codeActionsOnSave", CodeActionsOnSave, "eslint.validate");
    SetLookup(Existing(existing), "eslint.validate", v, "eslint.validate");
    forall i | 0 <= i < |langs|
      ensures Prop(v.items[i], "language") == Str(langs[i]) && Prop(v.items[i], "autoFix") == Bool(true)
    {
      ValidateEntryFields(langs[i]);
    }
  }

  /** No language is listed twice in `eslint.validate`. */
  lemma ValidateDistinct(features: seq<string>)
    ensures var items := ValidateEntries(Languages(features));
      forall i, j | 0 <= i < j < |items| :: items[i] != items[j]
  {
    LanguagesMeaning(LanguageGroups, features);
  }

  // ----------------------------------------------------------------- WebStorm

  /** The extension set `setupWebStormConfig` starts from. */
  const AllExtensions: seq<string> :=
    ["js", "ts", "jsx", "tsx", "cjs", "cts", "mjs", "mts", "html", "vue", "json", "yaml", "yml"]

  /** The blocks of `setupWebStormConfig` and the extensions each deletes when
      its feature is not selected. */
  const ReactExtensions := FeatureGroup("react", ["jsx", "tsx"])
  const TypescriptExtensions := FeatureGroup("typescript", ["ts", "cts", "mts"])
  const JsonExtensions := FeatureGroup("json", ["json"])
  const YamlExtensions := FeatureGroup("yaml", ["yaml", "yml"])

  /** The blocks, in the order they run. */
  const ExtensionGroups: seq<FeatureGroup> := [ReactExtensions, TypescriptExtensions, JsonExtensions, YamlExtensions]

  /** `xs.forEach(x => set.delete(x))`, one `Set.delete` at a time. */
  function DeleteEach(s: seq<string>, xs: seq<string>): seq<string>
    decreases |xs|
  {
    if xs == [] then s else DeleteEach(Drop(s, [xs[0]]), xs[1..])
  }

  /** Deleting one at a time deletes them all, keeping the order of the rest. */
  lemma {:induction false} DeleteEachDrops(s: seq<string>, xs: seq<string>)
    ensures DeleteEach(s, xs) == Drop(s, xs)
    decreases |xs|
  {
    if xs == [] {
      DropNothing(s);
    } else {
      DeleteEachDrops(Drop(s, [xs[0]]), xs[1..]);
      DropDrop(s, [xs[0]], xs[1..]);
      assert [xs[0]] + xs[1..] == xs;
    }
  }

  /** Runs the blocks in order over the extension set left so far. */
  function RemoveGroups(s: seq<string>, groups: seq<FeatureGroup>, features: seq<string>): seq<string>
    decreases |groups|
  {
    if groups == [] then s
    else
      var next := if groups[0].feature !in features then DeleteEach(s, groups[0].members) else s;
      RemoveGroups(next, groups[1..], features)
  }

  /** Running the blocks deletes the lists of the unselected features. */
  lemma {:induction false} RemoveGroupsDrops(s: seq<string>, groups: seq<FeatureGroup>, features: seq<string>)
    ensures RemoveGroups(s, groups, features) == Drop(s, Flatten(Chosen(groups, features, false)))
    decreases |groups|
  {
    if groups == [] {
      DropNothing(s);
    } else {
      var g := groups[0];
      var rest := Chosen(groups[1..], features, false);
      var next := if g.feature !in features then DeleteEach(s, g.members) else s;
      RemoveGroupsDrops(next, groups[1..], features);
      if g.feature !in features {
        assert Chosen(groups, features, false) == [g.members] + rest;
        assert ([g.members] + rest)[1..] == rest;
        DeleteEachDrops(s, g.members);
        DropDrop(s, g.members, Flatten(rest));
      } else {
        assert [] + rest == rest;
        assert Chosen(groups, features, false) == rest;
      }
    }
  }

  /** The extension set of `setupWebStormConfig` over a starting set and a
      table of blocks. */
  function ExtensionsWith(all: seq<string>, groups: seq<FeatureGroup>, features: seq<string>): seq<string> {
    RemoveGroups(all, groups, features)
  }

  /** The extension set of `setupWebStormConfig`. */
  function Extensions(features: seq<string>): seq<string> {
    ExtensionsWith(AllExtensions, ExtensionGroups, features)
  }

  /** The deletions keep the starting order, and an extension stays exactly
      when no block of an unselected feature lists it. */
  lemma ExtensionsMeaning(all: seq<string>, groups: seq<FeatureGroup>, features: seq<string>)
    ensures ExtensionsWith(all, groups, features) == Drop(all, Flatten(Chosen(groups, features, false)))
    ensures forall e :: e in ExtensionsWith(all, groups, features) <==> e in all && !Owned(groups, features, false, e)
  {
    RemoveGroupsDrops(all, groups, features);
    forall e ensures e in ExtensionsWith(all, groups, features) <==> e in all && !Owned(groups, features, false, e) {
      ChosenMembers(groups, features, false, e);
    }
  }

  /** The blocks, one by one. */
  lemma ExtensionGroupsAt()
    ensures |ExtensionGroups| == 4
    ensures ExtensionGroups[0] == ReactExtensions && ExtensionGroups[1] == TypescriptExtensions
    ensures ExtensionGroups[2] == JsonExtensions && ExtensionGroups[3] == YamlExtensions
  {
  }

  /** An extension of the starting set that exactly one block lists is linted
      exactly when that block's feature is selected. */
  lemma OwnedByOne(features: seq<string>, e: string, j: nat)
    requires e in AllExtensions
    requires j < |ExtensionGroups| && e in ExtensionGroups[j].members
    requires forall k | 0 <= k < |ExtensionGroups| && k != j :: e !in ExtensionGroups[k].members
    ensures e in Extensions(features) <==> ExtensionGroups[j].feature in features
  {
    ExtensionsMeaning(AllExtensions, ExtensionGroups, features);
  }

  /** An extension of the starting set that no block lists is always linted. */
  lemma OwnedByNone(features: seq<string>, e: string)
    requires e in AllExtensions
    requires forall k | 0 <= k < |ExtensionGroups| :: e !in ExtensionGroups[k].members
    ensures e in Extensions(features)
  {
    ExtensionsMeaning(AllExtensions, ExtensionGroups, features);
  }

  /** The extensions of the react block are in the starting set and no other
      block lists them. */
  lemma ReactExtensionsOwned()
    ensures forall e | e in ["jsx", "tsx"] ::
      && e in AllExtensions && e in ReactExtensions.members
      && e !in TypescriptExtensions.members && e !in JsonExtensions.members && e !in YamlExtensions.members
  {
    assert AllExtensions[2] == "jsx" && AllExtensions[3] == "tsx";
  }

  /** `jsx` and `tsx` are linted exactly when React is selected. */
  lemma ReactExtensionsKept(features: seq<string>)
    ensures forall e | e in ["jsx", "tsx"] :: e in Extensions(features) <==> "react" in features
  {
    ReactExtensionsOwned();
    ExtensionGroupsAt();
    forall e | e in ["jsx", "tsx"] ensures e in Extensions(features) <==> "react" in features {
      OwnedByOne(features, e, 0);
    }
  }

  /** The extensions of the typescript block are in the starting set and no other
      block lists them. */
  lemma TypescriptExtensionsOwned()
    ensures forall e | e in ["ts", "cts", "mts"] ::
      && e in AllExtensions && e in TypescriptExtensions.members
      && e !in ReactExtensions.members && e !in JsonExtensions.members && e !in YamlExtensions.members
  {
    assert AllExtensions[1] == "ts" && AllExtensions[5] == "cts" && AllExtensions[7] == "mts";
  }

  /** `ts`, `cts` and `mts` are linted exactly when TypeScript is selected. */
  lemma TypescriptExtensionsKept(features: seq<string>)
    ensures forall e | e in ["ts", "cts", "mts"] :: e in Extensions(features) <==> "typescript" in features
  {
    TypescriptExtensionsOwned();
    ExtensionGroupsAt();
    forall e | e in ["ts", "cts", "mts"] ensures e in Extensions(features) <==> "typescript" in features {
      OwnedByOne(features, e, 1);
    }
  }

  /** The extensions of the json block are in the starting set and no other
      block lists them. */
  lemma JsonExtensionsOwned()
    ensures forall e | e in ["json"] ::
      && e in AllExtensions && e in JsonExtensions.members
      && e !in ReactExtensions.members && e !in TypescriptExtensions.members && e !in YamlExtensions.members
  {
    assert AllExtensions[10] == "json";
  }

  /** `json` is linted exactly when JSON is selected. */
  lemma JsonExtensionsKept(features: seq<string>)
    ensures forall e | e in ["json"] :: e in Extensions(features) <==> "json" in features
  {
    JsonExtensionsOwned();
    ExtensionGroupsAt();
    forall e | e in ["json"] ensures e in Extensions(features) <==> "json" in features {
      OwnedByOne(features, e, 2);
    }
  }

  /** The extensions of the yaml block are in the starting set and no other
      block lists them. */
  lemma YamlExtensionsOwned()
    ensures forall e | e in ["yaml", "yml"] ::
      && e in AllExtensions && e in YamlExtensions.members
      && e !in ReactExtensions.members && e !in TypescriptExtensions.members && e !in JsonExtensions.members
  {
    assert AllExtensions[11] == "yaml" && AllExtensions[12] == "yml";
  }

  /** `yaml` and `yml` are linted exactly when YAML is selected. */
  lemma YamlExtensionsKept(features: seq<string>)
    ensures forall e | e in ["yaml", "yml"] :: e in Extensions(features) <==> "yaml" in features
  {
    YamlExtensionsOwned();
    ExtensionGroupsAt();
    forall e | e in ["yaml", "yml"] ensures e in Extensions(features) <==> "yaml" in features {
      OwnedByOne(features, e, 3);
    }
  }

  /** `js`, `cjs`, `mjs`, `html` and `vue` are in the starting set. */
  lemma UndeletableExtensions()
    ensures forall e | e in ["js", "cjs", "mjs", "html", "vue"] :: e in AllExtensions
  {
    assert AllExtensions[0] == "js" && AllExtensions[4] == "cjs" && AllExtensions[6] == "mjs";
    assert AllExtensions[8] == "html" && AllExtensions[9] == "vue";
  }

  /** No block lists `js`, `cjs`, `mjs`, `html` or `vue`. */
  lemma UndeletableUnlisted()
    ensures forall e | e in ["js", "cjs", "mjs", "html", "vue"] ::
      && e !in ReactExtensions.members && e !in TypescriptExtensions.members
      && e !in JsonExtensions.members && e !in YamlExtensions.members
  {
  }

  /** `js`, `cjs`, `mjs`, `html` and `vue` are linted whatever is selected. */
  lemma AlwaysLinted(features: seq<string>)
    ensures forall e | e in ["js", "cjs", "mjs", "html", "vue"] :: e in Extensions(features)
  {
    UndeletableExtensions();
    UndeletableUnlisted();
    ExtensionGroupsAt();
    forall e | e in ["js", "cjs", "mjs", "html", "vue"] ensures e in Extensions(features) {
      OwnedByNone(features, e);
    }
  }

  // The files pattern: a glob over every directory whose brace list is the
  // extensions joined by commas.
  function FilesPattern(extensions: seq<string>): (r: string)
    ensures StartsWith(r, "**/*.{") && EndsWith(r, "}")
  {
    "**/*.{" + Join(extensions, ",") + "}"
  }

  /** The text of `eslint.xml` before and after the files pattern. */
  const EslintXmlHead := "<?xml version=\"1.0\" encoding=\"UTF-8\"?>\n<project version=\"4\">\n  <component name=\"EslintConfiguration\">\n    <option name=\"configurationDirPath\" value=\"$PROJECT_DIR$\" />\n    <option name=\"additionalConfig\" value=\"--fix\" />\n    <files-pattern value=\""
  const EslintXmlTail := "\" />\n  </component>\n</project>\n"

  /** The text of `prettier.xml`. */
  const PrettierXml := "<?xml version=\"1.0\" encoding=\"UTF-8\"?>\n<project version=\"4\">\n  <component name=\"PrettierConfiguration\">\n    <option name=\"myConfigurationMode\" value=\"AUTOMATIC\" />\n  </component>\n</project>\n"

  /** A file the wizard writes: its path below the project root, as segments,
      and its content. */
  datatype IdeFile = IdeFile(path: seq<string>, content: string)

  /** The files `setupWebStormConfig(features, includePrettier)` writes, in order. */
  function WebStormFiles(features: seq<string>, includePrettier: bool): seq<IdeFile> {
    [IdeFile([".idea", "jsLinters", "eslint.xml"], EslintXmlHead + FilesPattern(Extensions(features)) + EslintXmlTail)]
    + (if includePrettier then [IdeFile([".idea", "prettier.xml"], PrettierXml)] else [])
  }

  /** `eslint.xml` is always written and is exactly its fixed head, then the
      pattern of the extension set, then its fixed tail; `prettier.xml` is
      written exactly when Prettier is included. */
  lemma WebStormFilesMeaning(features: seq<string>, includePrettier: bool)
    ensures var files := WebStormFiles(features, includePrettier);
      var pattern := FilesPattern(Extensions(features));
      && files[0].path == [".idea", "jsLinters", "eslint.xml"]
      && StartsWith(files[0].content, EslintXmlHead)
      && OccursAt(files[0].content, pattern, |EslintXmlHead|)
      && EndsWith(files[0].content, EslintXmlTail)
      && |files[0].content| == |EslintXmlHead| + |pattern| + |EslintXmlTail|
      && (|files| == 2 <==> includePrettier)
      && |files| <= 2
      && (includePrettier ==> files[1] == IdeFile([".idea", "prettier.xml"], PrettierXml))
  {
    var pattern := FilesPattern(Extensions(features));
    var c := EslintXmlHead + pattern + EslintXmlTail;
    assert c[..|EslintXmlHead|] == EslintXmlHead;
    assert c[|EslintXmlHead|..|EslintXmlHead| + |pattern|] == pattern;
    assert c[|c| - |EslintXmlTail|..] == EslintXmlTail;
  }
}
