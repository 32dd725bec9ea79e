# ESLint-Config-ElsiKora: the composition and remapping core in Dafny

This project models the core of `@elsikora/eslint-config` and proves properties
of it. That core turns feature flags into a flat list of ESLint flat-config
fragments, and it re-exports third-party plugins under the package's own
namespaces. The model covers:

- **Rule-name remapper** (`RuleName`, over `AliasTable`). `formatRuleName`
  rewrites the leading `<namespace>/` of a rule id. It tries the alias-table keys
  longest first, with a stable sort. The model proves that this always picks the
  longest matching key, and the earliest one on a tie.
- **The shipped alias table** (`PluginMap`): `PLUGIN_MAP` and its facts.
- **Configuration remapper** (`FormatConfig`). `formatConfig` builds fresh
  fragments:
  - plugins are renamed by reading the original map;
  - unaliased plugins are copied;
  - every rule id goes through `formatRuleName`.
- **Legacy remapper** (`LegacyFormat`). `src/utility/format.ts` scans its table
  in declaration order and rewrites each fragment in place: it assigns a value,
  then deletes the old key. The in-place mutation is a function from the old
  state of a fragment to its new state. The four identity entries of the legacy
  table delete their plugin outright. This is modelled as written.
- **Config factory** (`ConfigFactory`). `createConfig` keeps the options whose
  value is exactly `true` and whose flag is known. It loads each of them and
  turns a failed import into a warning plus `[]`. It then flattens the results in
  options-entry order.
- **Legacy `createConfig`** (`LegacyIndex`). `src/index.ts` concatenates the
  lists of the truthy options in one fixed order.
- **Setup-wizard helpers**:
  - `FrameworkDetection`: the ignore list and the lint commands;
  - `PackageManager`: installed-feature detection, TypeScript detection, the
    install set, selection validation, and the `npm ls` version checks;
  - `IdeConfig`: the VSCode language set and settings, and the WebStorm
    extension set and files.

JavaScript objects are ordered association lists (`Dicts.Dict`). Keys are kept
in insertion order:

- an assignment to an existing key keeps that key's place;
- a new key goes to the end;
- `delete` removes the key.

A JavaScript `Set` is a duplicate-free sequence in insertion order (`Seqs.AddUnique`,
`Seqs.AddAll`). Values are `Js.Value`. Plugin objects and rule settings are
opaque values, compared by equality.

The factory's output follows the order of the entries of the options object
(`Object.entries(options)`, `src/application/factory/config.factory.ts:58-68`),
not the declared order of `OPTIONS_TO_CONFIG_MAP`, as
`ConfigFactory.CreateConfigAppend` shows.

`src/index.spec.ts` calls the legacy `createConfig` with `withJavascript`-style
keys, but `src/index.ts` reads `javascript`, `typescript` and so on.
`LegacyIndex.CreateConfigPrefixedKeys` shows that such options select nothing
and give `[]`. Under the code as written, the expectations of that file that
want a non-empty result therefore do not hold.

## Model

| member | source | states |
|---|---|---|
| AliasTable.RewriteMatched | src/infrastructure/utility/format-rule-name.utility.ts:9 | replacing the matched `key/` swaps the leading namespace for the target and keeps the rest of the id character for character, even when later segments look like keys |
| AliasTable.MatchesIsLeadingSegment | src/infrastructure/utility/format-rule-name.utility.ts:6-8 | a key matches only as a whole leading segment: the id starts with the key, then a `/` |
| RuleName.SortByKeyLengthPermutes | src/infrastructure/utility/format-rule-name.utility.ts:4 | the length sort is a permutation of the table (same multiset of entries) |
| RuleName.SortByKeyLengthSorted | src/infrastructure/utility/format-rule-name.utility.ts:4 | after the sort, keys never get longer further down the table |
| RuleName.FirstMatch | src/infrastructure/utility/format-rule-name.utility.ts:4-11 | the loop finds a matching table entry, and finds none exactly when no key matches |
| RuleName.FirstMatchInsert | src/infrastructure/utility/format-rule-name.utility.ts:4 | inserting into a length-sorted table keeps the new entry ahead of equal-length keys, so the first match is the preferred one of the new entry and the old first match |
| RuleName.FirstMatchOfSorted | src/infrastructure/utility/format-rule-name.utility.ts:4-11 | the first match in the length-sorted table is the reference longest match, the earliest in declaration order on a tie |
| RuleName.Longest | src/infrastructure/utility/format-rule-name.utility.ts:4-11 | the reference choice is a matching entry whose key is at least as long as every matching key, and none exists exactly when no key matches |
| RuleName.SortedRewrite | src/infrastructure/utility/format-rule-name.utility.ts:3-14 | with no match the id is returned as is; otherwise it is rewritten by the longest, earliest matching entry |
| RuleName.FormatRuleName | src/infrastructure/utility/format-rule-name.utility.ts:3-14 | `formatRuleName`: no matching key leaves the id unchanged, including with an empty table; otherwise the result is target + `/` + the rest after the longest matching key |
| RuleName.NoSlashUnchanged | src/infrastructure/utility/format-rule-name.utility.ts:6-13 | an id without `/` comes back unchanged, whatever the table |
| PluginMap.PluginMapKeys | src/infrastructure/constant/utility/plugin-map.constant.ts:1-17 | `PLUGIN_MAP` has 15 entries and no key twice |
| PluginMap.PluginMapTargetsDistinct | src/infrastructure/constant/utility/plugin-map.constant.ts:2-16 | no two keys share a target, so plugin remapping with this table never collides |
| PluginMap.EslintReactNamespaces | src/infrastructure/constant/utility/plugin-map.constant.ts:2-6 | `@eslint-react` is the leading namespace of exactly the four entries that follow it |
| PluginMap.PluginMapNotPrefixFree | src/infrastructure/constant/utility/plugin-map.constant.ts:2-6 | the table is not prefix-free, so the order in which keys are tried matters |
| PluginMap.PluginMapTargetsNotKeys | src/infrastructure/constant/utility/plugin-map.constant.ts:2-16 | no target is itself a key |
| PluginMap.PluginMapTargetsVendored | src/infrastructure/constant/utility/plugin-map.constant.ts:2-16 | every target starts with `@elsikora-` or `elsikora-` |
| FormatConfig.FormatConfig | src/infrastructure/utility/format-config.utility.ts:10-70 | one output fragment per input fragment, in the same order, each the remap of its input |
| FormatConfig.FormatOne | src/infrastructure/utility/format-config.utility.ts:13-66 | every field other than `plugins` and `rules` is copied unchanged; the output has `plugins` (`rules`) exactly when the input has them |
| FormatConfig.AddAliasedWinner | src/infrastructure/utility/format-config.utility.ts:21-28 | the plugin stored under a target is that of the last firing entry, in sorted order, with that target |
| FormatConfig.AddUnaliasedCopies | src/infrastructure/utility/format-config.utility.ts:30-34 | the second pass copies every plugin whose key is not a table key, with its value |
| FormatConfig.RemapPluginsKeys | src/infrastructure/utility/format-config.utility.ts:18-37 | the remapped plugins hold exactly the targets of firing entries and the plugins whose key is not a table key; a table key never survives under its own name |
| FormatConfig.RemapPluginsKeepsUnaliased | src/infrastructure/utility/format-config.utility.ts:30-34 | a plugin whose key is not in the table is kept under its key with its value |
| FormatConfig.RemapPluginsRenames | src/infrastructure/utility/format-config.utility.ts:21-28 | with distinct targets, a truthy aliased plugin appears under its target with the same value |
| FormatConfig.RemapPluginsShorterKeyWins | src/infrastructure/utility/format-config.utility.ts:21-28 | when two firing keys share a target, the shorter key, which comes later in the sorted order, wins |
| FormatConfig.RemapPluginsDropsFalsy | src/infrastructure/utility/format-config.utility.ts:25-34 | an aliased plugin that is missing or falsy is kept neither under its target nor under its own key |
| FormatConfig.SwapKeepsBoth | src/infrastructure/utility/format-config.utility.ts:19-28 | renames read the original map: with the swap table A→B, B→A both plugins survive, each under the other's name |
| FormatConfig.SwapKeepsOnlyBoth | src/infrastructure/utility/format-config.utility.ts:19-37 | after the swap the plugins hold exactly the two keys |
| FormatConfig.RenameRuleIsFirstMatch | src/infrastructure/utility/format-config.utility.ts:45-56 | the inner rule loop with `isReplaced` and `break` rewrites by the first matching entry of the sorted table, or by none |
| FormatConfig.RuleKeyIsFormatRuleName | src/infrastructure/utility/format-config.utility.ts:42-61 | each rule is stored under exactly the id `formatRuleName` gives it |
| FormatConfig.RemapRulesKeys | src/infrastructure/utility/format-config.utility.ts:39-64 | the remapped rules hold exactly the `formatRuleName` images of the original ids |
| FormatConfig.RemapRulesValue | src/infrastructure/utility/format-config.utility.ts:39-64 | a rule's setting is found under its remapped id unless a later rule is remapped to the same id |
| FormatConfig.RemapRulesInOrder | src/infrastructure/utility/format-config.utility.ts:39-64 | when no two ids remap alike, the rules are renamed in place: same count, order and settings |
| LegacyFormat.LegacyRuleName | src/utility/format.ts:21-31 | the legacy `formatRuleName` rewrites by the first matching entry in declaration order and keeps an unmatched id |
| LegacyFormat.PrefixFreeAgrees | src/utility/format.ts:21-31 | on a prefix-free table, scanning in declaration order and scanning longest-first give the same id |
| LegacyFormat.LegacyMapSorted | src/utility/format.ts:3-19 | the legacy keys are declared in strictly increasing order |
| LegacyFormat.LegacyMapPrefixFree | src/utility/format.ts:3-19 | no legacy key is repeated or is a namespace prefix of another, so at most one entry matches any id |
| LegacyFormat.LegacyMapTargets | src/utility/format.ts:3-19 | the legacy targets are distinct |
| LegacyFormat.LegacyMapIdentities | src/utility/format.ts:4-8 | exactly the first four legacy entries map a namespace to itself |
| LegacyFormat.LegacyMapUnchained | src/utility/format.ts:3-19 | no legacy target is the key of another entry, so no rename feeds into another |
| LegacyFormat.PluginStepLookup | src/utility/format.ts:40-46 | one entry of the plugin loop: a truthy plugin is written under the target, then deleted under its key; other keys are untouched |
| LegacyFormat.LegacyPluginsUntouched | src/utility/format.ts:38-48 | a key that no entry reads or writes keeps its plugin |
| LegacyFormat.LegacyPluginsKeepsAbsent | src/utility/format.ts:38-48 | a missing key that no entry writes stays missing |
| LegacyFormat.LegacyPluginsMoves | src/utility/format.ts:38-48 | an undisturbed truthy plugin is moved: its key is deleted and, unless the entry is an identity, the target holds it |
| LegacyFormat.LegacyPluginsMovesAll | src/utility/format.ts:38-48 | in a table with distinct keys, distinct targets and no chains, every truthy plugin is moved that way |
| LegacyFormat.LegacyMapPlugins | src/utility/format.ts:38-48 | with the legacy table, a plugin of one of the four identity keys is deleted outright, and any other plugin moves to its target |
| LegacyFormat.MoveRuleUnmatched | src/utility/format.ts:53-62 | an id that no entry matches is left alone |
| LegacyFormat.MoveRuleUnique | src/utility/format.ts:53-62 | with one matching entry, the setting is written under the rewritten id and the old id is deleted; an identity entry deletes the rule |
| LegacyFormat.MoveRulePrefixFree | src/utility/format.ts:53-62 | on a prefix-free table, the inner loop either leaves the rules alone or moves the one setting to the legacy `formatRuleName` id |
| LegacyFormat.MoveRuleLookup | src/utility/format.ts:53-62 | the effect of the inner loop for one id on every key |
| LegacyFormat.MoveRulesUntouched | src/utility/format.ts:51-64 | a key that no moved id is, or is rewritten to, keeps its setting through the snapshot loop |
| LegacyFormat.MoveRulesKeepsAbsent | src/utility/format.ts:51-64 | a missing key that no moved id is rewritten to stays missing |
| LegacyFormat.MoveRulesMovesFirst | src/utility/format.ts:51-64 | the first snapshotted id, when moved and undisturbed later, ends up deleted, with its setting under its new id |
| LegacyFormat.MoveRulesMoves | src/utility/format.ts:51-64 | any snapshotted id that is undisturbed before and after ends up deleted, with its setting under its new id |
| LegacyFormat.LegacyRulesMoveAll | src/utility/format.ts:51-64 | with a clean rename on a prefix-free table, every matched rule moves to its legacy id and its old id is gone; every unmatched rule keeps its setting |
| LegacyFormat.LegacyFormatOne | src/utility/format.ts:36-66 | same other fields; `plugins` and `rules` present exactly when they were; a fragment with neither is returned unchanged |
| LegacyFormat.LegacyFormatConfig | src/utility/format.ts:33-70 | the same fragments, in the same order and number, each in its rewritten state |
| ConfigFactory.ShippedAligned | src/application/factory/config.factory.ts:17-55 | 17 flags and 17 loaders; the loader table lists the flag table's names in the same order; no name is empty |
| ConfigFactory.ShippedFlagsDistinct | src/application/factory/config.factory.ts:17-35 | no flag is declared twice |
| ConfigFactory.ShippedLoadersDistinct | src/application/factory/config.factory.ts:37-55 | no loader name is declared twice |
| ConfigFactory.ShippedConsistent | src/application/factory/config.factory.ts:17-55 | the shipped flag and loader tables agree |
| ConfigFactory.FlagNamesInjective | src/application/factory/config.factory.ts:17-55 | in agreeing tables, every flag names a config that has a loader, and no two flags name the same config |
| ConfigFactory.LoadConfig | src/application/factory/config.factory.ts:71-81 | `loadConfig`: the module's default export and no warning when the import succeeds; otherwise `[]` and one warning naming the config |
| ConfigFactory.SelectionMeans | src/application/factory/config.factory.ts:59-63 | an entry selects a name exactly when its value is `true` and its key is a known flag; the name is that flag's, and it has a loader |
| ConfigFactory.SelectedNamesAppend | src/application/factory/config.factory.ts:58-64 | the names selected from concatenated options are those of each part, in order |
| ConfigFactory.SelectedNamesMembers | src/application/factory/config.factory.ts:58-64 | a name is selected exactly when some entry selects it |
| ConfigFactory.SelectedNamesHaveLoaders | src/application/factory/config.factory.ts:58-64 | with agreeing tables, every selected name has a loader |
| ConfigFactory.LoadAllAppend | src/application/factory/config.factory.ts:66-68 | loading a concatenation of names loads each part, in order, configs and warnings alike |
| ConfigFactory.Contributions | src/application/factory/config.factory.ts:66 | the contribution of each name, position by position, is what `loadConfig` gives it |
| ConfigFactory.LoadAllFlattens | src/application/factory/config.factory.ts:66-68 | the result is the concatenation of the contributions, with `[]` for a failure; the warnings name exactly the failed configs, one each, in order |
| ConfigFactory.CreateConfigAppend | src/application/factory/config.factory.ts:57-69 | output order follows the order of the option entries, not completion order: concatenated options give concatenated results |
| ConfigFactory.NothingSelected | src/application/factory/config.factory.ts:57-69 | options with no `true` entry for a known flag give `[]` and no warning |
| ConfigFactory.CreateConfigNothingSelected | src/application/factory/config.factory.ts:57-69 | with the shipped tables, options that switch on no known flag, `{}` included, give `[]` and no warning |
| ConfigFactory.SelectOne | src/application/factory/config.factory.ts:57-81 | one selected flag gives its module's default export, or `[]` and one warning naming its config |
| ConfigFactory.CreateConfigOne | src/application/factory/config.factory.ts:57-81 | each of the 17 shipped flags, switched on alone, gives its module's export, or `[]` and one warning |
| LegacyIndex.Enabled | src/index.ts:44-110 | a name is enabled exactly when it is in the order and its option is truthy |
| LegacyIndex.ListsOf | src/index.ts:44-110 | the bundled list of each enabled name, position by position |
| LegacyIndex.PushFlattens | src/index.ts:44-110 | the push sequence appends the enabled lists, in the fixed order, to what was built before |
| LegacyIndex.CreateConfigFlattens | src/index.ts:41-113 | the result is the concatenation of the enabled lists in the fixed order, and its length is the sum of their lengths |
| LegacyIndex.EnabledReadsOnly | src/index.ts:44-110 | only the values read matter: options that agree on every name enable the same names |
| LegacyIndex.PushKeyOrder | src/index.ts:44-110 | the pushed result does not depend on the order of the option keys |
| LegacyIndex.CreateConfigKeyOrder | src/index.ts:41-113 | the result does not depend on the order of the option keys |
| LegacyIndex.CreateConfigNothingEnabled | src/index.ts:41-113 | no truthy option of the fixed order gives `[]` |
| LegacyIndex.CreateConfigDefault | src/index.ts:41-42 | `createConfig()` with the default `{}` gives `[]` |
| LegacyIndex.CreateConfigPrefixedKeys | src/index.ts:21-113 | options whose keys all start with `with` select nothing and give `[]` |
| LegacyIndex.PushContiguous | src/index.ts:44-110 | each enabled list sits whole and contiguous in the pushed result, right after the lists enabled before it |
| LegacyIndex.CreateConfigContiguous | src/index.ts:41-113 | each enabled list sits whole and contiguous in the result |
| FrameworkDetection.DirectoryIgnore | src/cli/framework-detection.ts:209 | a directory maps to `**/<dir>/**/*`, its one trailing `/` not doubled |
| FrameworkDetection.DirectoryIgnoreSlash | src/cli/framework-detection.ts:209 | `dir` and `dir/` give the same pattern |
| FrameworkDetection.DirectoryIgnores | src/cli/framework-detection.ts:209 | one pattern per directory, in order |
| FrameworkDetection.IgnoreConfigWith | src/cli/framework-detection.ts:199-222 | without a framework: the common ignores and no lint paths; with one: the framework's lint paths |
| FrameworkDetection.IgnoreConfigNoFramework | src/cli/framework-detection.ts:203-221 | the common list has nine entries and is returned alone, with no lint paths, when no framework is detected |
| FrameworkDetection.IgnoreConfigLayout | src/cli/framework-detection.ts:205-215 | with a framework: the common ignores, then one pattern per directory in order, then the patterns unchanged; lint paths are the framework's |
| FrameworkDetection.DirectoryOf | src/cli/framework-detection.ts:229 | `split("/*")[0]`: the longest prefix with no `/*` in it, ending where the first `/*` begins, or the whole path |
| FrameworkDetection.DirectoriesOf | src/cli/framework-detection.ts:227-230 | one directory per base path, in order |
| FrameworkDetection.CommandDirectoriesMeaning | src/cli/framework-detection.ts:226-233 | the command directories are distinct; they are exactly the directories of the base paths (the framework's, else the custom ones); none contains `/*` |
| FrameworkDetection.SegmentsJoin | src/cli/framework-detection.ts:240-253 | joining the pushed segments with ` && ` gives the eslint segment followed by each included tool's segment |
| FrameworkDetection.LintCommandsClosedForm | src/cli/framework-detection.ts:224-254 | lint is `eslint ` + directories joined by spaces, then stylelint and prettier segments when included; fix adds ` --fix` and the fixing segments |
| FrameworkDetection.FixIsLintWithFix | src/cli/framework-detection.ts:235-238 | without stylelint and prettier, the fix command is the lint command plus ` --fix` |
| FrameworkDetection.LintCommandsEmpty | src/cli/framework-detection.spec.ts:45-49 | no paths give `eslint ` and `eslint  --fix` |
| FrameworkDetection.LintCommandsOnePath | src/cli/framework-detection.spec.ts:38-43 | a single base path gives `eslint <dir>` and `eslint <dir> --fix` |
| FrameworkDetection.DirectoryOfExamples | src/cli/framework-detection.spec.ts:8-64 | `src/**/*` and `src` give `src`; `custom/path/**/*` gives `custom/path` |
| PackageManager.FeaturesConfigWellFormed | src/cli/constants.ts:3-83 | the 17 feature names of `FEATURES_CONFIG` are distinct, since they are declared in increasing order |
| PackageManager.FeaturesConfigFlags | src/cli/constants.ts:3-83 | `javascript` is the only required feature; `nest`, `typeorm` and `typescript` are exactly the features that need TypeScript |
| PackageManager.AllDependenciesLookup | src/cli/package-manager.ts:54-57 | in the merged dependencies, a development dependency wins over a dependency of the same name |
| PackageManager.RequiredNames | src/cli/package-manager.ts:60-64 | a feature is listed exactly when it is marked `required` |
| PackageManager.DetectedNames | src/cli/package-manager.ts:66-75 | a feature is listed exactly when some package of its `detect` list is truthy in the dependencies |
| PackageManager.DetectedMeaning | src/cli/package-manager.ts:54-75 | a named feature is detected exactly when its table entry has a `detect` list with a truthy package in the merged dependencies |
| PackageManager.DetectedNothing | src/cli/package-manager.ts:66-75 | with no dependencies nothing is detected |
| PackageManager.InstalledFeaturesMeaning | src/cli/package-manager.ts:54-77 | no feature is reported twice; a feature is reported exactly when required or detected; the list is the required features in table order, followed by the detected features that are not required, in table order |
| PackageManager.InstalledFeaturesOnFailure | src/cli/package-manager.ts:78-80 | an unreadable or unparsable manifest gives `["javascript"]` |
| PackageManager.InstalledFeaturesBareWith | src/cli/package-manager.ts:58-77 | a manifest without dependencies gives the required features alone |
| PackageManager.InstalledFeaturesBare | src/cli/package-manager.ts:48-81 | with the shipped table, a manifest without dependencies gives `["javascript"]` |
| PackageManager.TypescriptAsFeature | src/cli/package-manager.ts:83-99 | TypeScript is detected exactly when the manifest is read and a package of the `typescript` feature's detect list is truthy in the merged dependencies, which is exactly when `detectInstalledFeatures()` reports `typescript`; an unreadable manifest gives `false` |
| PackageManager.AddFeaturePackagesMeaning | src/cli/package-manager.ts:104-110 | adding feature packages keeps the set so far in place, adds each requested package once, and adds nothing else |
| PackageManager.InstallSetMeaning | src/cli/package-manager.ts:101-113 | the core dependencies come first; every package appears once; a package is installed exactly when it is core or belongs to a known selected feature; unknown features are skipped; the set is the distinct packages of the core list followed by the known features' lists in selection order, in order of first occurrence |
| PackageManager.Messages | src/cli/package-manager.ts:127 | one message per reported feature, in order |
| PackageManager.NeedingTypescript | src/cli/package-manager.ts:123-129 | a feature is listed exactly when it is selected, known, and needs TypeScript |
| PackageManager.OffendersMeaning | src/cli/package-manager.ts:123-129 | the loop completes exactly when every selected feature is known; it then reports the features needing TypeScript when TypeScript is absent, and none when present |
| PackageManager.ValidateMeaning | src/cli/package-manager.ts:116-135 | validation resolves exactly when every feature is known; it then gives one error per selected feature needing TypeScript when TypeScript is absent, and is valid exactly when there are no errors |
| PackageManager.UnknownFeature | src/cli/package-manager.ts:101-129 | an unknown feature makes validation throw, while the install set skips it |
| PackageManager.CheckInstalledMeaning | src/cli/package-manager.ts:12-46 | installed exactly when a truthy version is found, otherwise the version is `null`; a failed `npm ls`, or one whose output parses to `null`, reports not installed; for any other listing the version is the one under `dependencies` if truthy, else the one under `devDependencies` if truthy, else `null` |
| IdeConfig.AddGroupsFlattens | src/cli/ide-config.ts:16-41 | running the language blocks adds the lists of the selected blocks, concatenated, to the set |
| IdeConfig.LanguagesMeaning | src/cli/ide-config.ts:16-41 | the language set is the distinct languages of the selected blocks, in order of first occurrence; a language is in it exactly when a selected block lists it |
| IdeConfig.SelectedGroupAdds | src/cli/ide-config.ts:16-41 | a selected block adds all of its languages |
| IdeConfig.LanguagesJavascript | src/cli/ide-config.ts:18-21 | `javascript` brings `javascript` and `javascriptreact` |
| IdeConfig.LanguagesTypescript | src/cli/ide-config.ts:23-26 | `typescript` brings `typescript` and `typescriptreact` |
| IdeConfig.LanguagesJson | src/cli/ide-config.ts:28-31 | `json` brings `json` and `jsonc` |
| IdeConfig.LanguagesYaml | src/cli/ide-config.ts:33-36 | `yaml` brings `yaml` and `yml` |
| IdeConfig.LanguagesReact | src/cli/ide-config.ts:38-41 | `react` brings `javascriptreact` and `typescriptreact` |
| IdeConfig.ValidateEntries | src/cli/ide-config.ts:43-46 | one `eslint.validate` entry per language, in order |
| IdeConfig.ValidateEntryFields | src/cli/ide-config.ts:43-46 | each entry has `language` set to its language and `autoFix: true` |
| IdeConfig.VSCodeSettingsKeepsOthers | src/cli/ide-config.ts:7-49 | every existing setting other than the two ESLint keys keeps its value; a missing file starts from `{}` |
| IdeConfig.VSCodeSettingsKeys | src/cli/ide-config.ts:43-49 | the existing keys keep their order, and only the two ESLint keys may be added after them |
| IdeConfig.VSCodeSettingsEslint | src/cli/ide-config.ts:43-49 | `eslint.validate` has one `{language, autoFix: true}` per language of the set, in order, and `editor.codeActionsOnSave` turns on `source.fixAll.eslint` |
| IdeConfig.ValidateDistinct | src/cli/ide-config.ts:16-46 | no language is listed twice in `eslint.validate` |
| IdeConfig.DeleteEachDrops | src/cli/ide-config.ts:60-78 | deleting one extension at a time deletes them all and keeps the order of the rest |
| IdeConfig.RemoveGroupsDrops | src/cli/ide-config.ts:60-78 | running the blocks deletes the lists of the unselected features |
| IdeConfig.ExtensionsMeaning | src/cli/ide-config.ts:58-78 | the extension set keeps the starting order, and an extension stays exactly when no block of an unselected feature lists it |
| IdeConfig.OwnedByOne | src/cli/ide-config.ts:58-78 | an extension that exactly one block lists is kept exactly when that block's feature is selected |
| IdeConfig.OwnedByNone | src/cli/ide-config.ts:58-78 | an extension that no block lists is always kept |
| IdeConfig.ReactExtensionsKept | src/cli/ide-config.ts:60-63 | `jsx` and `tsx` are linted exactly when `react` is selected |
| IdeConfig.TypescriptExtensionsKept | src/cli/ide-config.ts:65-69 | `ts`, `cts` and `mts` are linted exactly when `typescript` is selected |
| IdeConfig.JsonExtensionsKept | src/cli/ide-config.ts:71-73 | `json` is linted exactly when `json` is selected |
| IdeConfig.YamlExtensionsKept | src/cli/ide-config.ts:75-78 | `yaml` and `yml` are linted exactly when `yaml` is selected |
| IdeConfig.AlwaysLinted | src/cli/ide-config.ts:58 | `js`, `cjs`, `mjs`, `html` and `vue` are linted whatever is selected |
| IdeConfig.FilesPattern | src/cli/ide-config.ts:80 | the pattern starts with `**/*.{` and ends with `}` |
| IdeConfig.WebStormFilesMeaning | src/cli/ide-config.ts:56-108 | `.idea/jsLinters/eslint.xml` is always written and its content is exactly the fixed head, then the extension pattern, then the fixed tail; `.idea/prettier.xml` is written exactly when Prettier is included |

## Left out

- File and process I/O is not modelled. This covers `fs.readFile`, `fs.mkdir`, `fs.writeFile`, `exec("npm ...")`, `process.cwd()` and `path.resolve`. What was read arrives as a parameter: a parsed manifest or a failure, the parsed `npm ls` output or a failure, or the existing settings or none. What would be written is returned as a value. `installDependencies` is modelled as its package set and command string.
- `JSON.parse` and `JSON.stringify` are not modelled. A file that does not parse folds into the same failure as a missing file. `package.json` and `settings.json` are assumed to parse to objects. Parsed JSON that is not an object is not modelled.
- The dynamic `import()` of a config module is a parameter from config name to loaded list or error. `Promise.all` is modelled as a sequential map: the output order is positional and does not depend on when a load settles. `console.warn` becomes a list of warnings, listed by the position of the failed load; the source logs them in the order in which the imports settle (`src/application/factory/config.factory.ts:71-78`), which the model does not fix.
- The JavaScript object key order is modelled as plain insertion order. The special ordering of integer-like keys, and keys inherited from `Object.prototype`, are not modelled. No key of these tables is integer-like.
- `String.prototype.replace` is modelled as a replacement at the matched prefix. `$` patterns in the replacement string are not modelled; no target contains `$`.
- The legacy `formatConfig` mutates the caller's objects in place. It is modelled as a function from the old state of a fragment to its new state. Aliasing between fragments that share a `plugins` or `rules` object is not modelled.
- A fragment's `plugins` or `rules` that is present but falsy is modelled as absent. The new remapper drops such a property from its output (`src/infrastructure/utility/format-config.utility.ts:15-16`); the legacy one leaves it unchanged (`src/utility/format.ts:38`, `:51`, `:68`). The model folds both into `None` and does not distinguish them.
- RuleName.SortByKeyLength: key length is counted in characters, not in UTF-16 code units as `length` does in `format-rule-name.utility.ts:4` and `format-config.utility.ts:21`. This cannot change `formatRuleName`, since two keys matching one id are prefix-related and both measures order them alike; it could change which firing key wins a shared target in `FormatConfig.RemapPluginsShorterKeyWins` for a key outside the Basic Multilingual Plane. No shipped key is non-ASCII.
- `detectProjectStructure`, `fileExists` and the `FRAMEWORK_CONFIGS` table are not modelled: they read the file system. The detected framework is an input of `GenerateIgnoreConfig` and `GenerateLintCommands`.
- The `description` of each feature in `FEATURES_CONFIG` is not modelled, because no modelled operation reads it.
- PackageManager.CheckInstalledMeaning: the version is any truthy JSON value, not necessarily a string, as the untyped `npm ls` output allows.
- IdeConfig.FilesPattern: its contract states only the outer shape. The exact pattern, `**/*.{` + the extensions joined by `,` + `}`, is its definition, and `ExtensionsMeaning` states the extension list.
- Facts about fixed feature combinations are not stated as concrete language or extension lists. One example is the full language list when every feature is selected. They follow from the per-block lemmas (`LanguagesJavascript`, `ReactExtensionsKept`, …) and from `LanguagesMeaning` and `ExtensionsMeaning`.
- The interactive wizard, the config-file generator and the other setup helpers are not part of this model. That includes the license, CI and stylelint helpers. The static rule-set fragments are opaque lists.
