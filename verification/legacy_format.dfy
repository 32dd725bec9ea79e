/** The older remapper still used by the rule-set fragments. It scans its alias
    table in declaration order, without sorting, and rewrites each fragment in
    place: a plugin or rule is written under its new name and then deleted under
    its old one. The in-place mutation is modelled as a function from the old
    state of a fragment to its new state. */
module LegacyFormat {
  import opened Wrappers
  import opened Dicts
  import opened Js
  import opened AliasTable
  import opened RuleName
  import opened LintConfig
  import Text

  /** The legacy `pluginMap`, in declaration order. The first four entries map a
      namespace to itself. */
  const LegacyMap: Table := [
    Alias("@elsikora-react/dom", "@elsikora-react/dom"),
    Alias("@elsikora-react/hooks-extra", "@elsikora-react/hooks-extra"),
    Alias("@elsikora-react/naming-convention", "@elsikora-react/naming-convention"),
    Alias("@elsikora-react/web-api", "@elsikora-react/web-api"),
    Alias("@eslint-react", "@elsikora-react"),
    Alias("@stylistic", "@elsikora-stylistic"),
    Alias("@typescript-eslint", "@elsikora-typescript"),
    Alias("check-file", "@elsikora-check-file"),
    Alias("jsonc", "elsikora-json"),
    Alias("n", "elsikora-node"),
    Alias("package-json", "@elsikora-package-json"),
    Alias("perfectionist", "@elsikora-perfectionist"),
    Alias("prettier", "@elsikora-prettier"),
    Alias("sonarjs", "@elsikora-sonar"),
    Alias("unicorn", "@elsikora-unicorn")
  ]

  /** An entry maps a namespace to itself. */
  predicate Identity(a: Alias) {
    a.from == a.to
  }

  /** The targets of a table are never the keys of other entries, so no rename
      feeds into another. */
  predicate Unchained(t: Table) {
    forall i, j | 0 <= i < |t| && 0 <= j < |t| && t[i].to == t[j].from :: i == j
  }

  // -------------------------------------------------------------- rule names

  /** What the legacy `formatRuleName` says about one id: it is rewritten by the
      first entry in declaration order whose key matches, and kept when none does. */
  lemma LegacyRuleNameFacts(t: Table, name: string)
    ensures (forall i | 0 <= i < |t| :: !Matches(t[i].from, name)) ==> ApplyMatch(FirstMatch(t, name), name) == name
    ensures forall i: nat | IsFirstMatch(t, name, i) ::
      ApplyMatch(FirstMatch(t, name), name) == t[i].to + "/" + name[|t[i].from| + 1..]
  {
    forall i: nat | IsFirstMatch(t, name, i)
      ensures ApplyMatch(FirstMatch(t, name), name) == t[i].to + "/" + name[|t[i].from| + 1..]
    {
      FirstMatchAt(t, name, i);
      RewriteMatched(t[i], name);
    }
  }

  /** The legacy `formatRuleName`: the first matching entry in declaration order
      rewrites the leading namespace; with no match the id is returned unchanged. */
  function LegacyRuleName(t: Table, name: string): (r: string)
    ensures (forall i | 0 <= i < |t| :: !Matches(t[i].from, name)) ==> r == name
    ensures forall i: nat | IsFirstMatch(t, name, i) :: r == t[i].to + "/" + name[|t[i].from| + 1..]
  {
    LegacyRuleNameFacts(t, name);
    ApplyMatch(FirstMatch(t, name), name)
  }

  /** On a table where no key is a namespace prefix of another, the first match is
      the only match, so scanning in declaration order and scanning longest-first
      rewrite every id alike. */
  lemma PrefixFreeAgrees(t: Table, name: string)
    requires PrefixFree(t)
    ensures LegacyRuleName(t, name) == FormatRuleName(t, name)
  {
    if m: nat :| m < |t| && Matches(t[m].from, name) {
      forall j | 0 <= j < |t| && Matches(t[j].from, name) ensures j == m {
        PrefixFreeUniqueMatch(t, name, m, j);
      }
      assert IsFirstMatch(t, name, m);
      assert IsLongestMatch(t, name, m);
    }
  }

  /** The four identity keys are in increasing order; they first differ at index 16. */
  lemma LegacyMapSortedIdentities()
    ensures forall i | 0 <= i < 3 :: Text.Precedes(LegacyMap[i].from, LegacyMap[i + 1].from)
  {
    assert Text.PrecedesAt(LegacyMap[0].from, LegacyMap[1].from, 16);
    assert Text.PrecedesAt(LegacyMap[1].from, LegacyMap[2].from, 16);
    assert Text.PrecedesAt(LegacyMap[2].from, LegacyMap[3].from, 16);
  }

  /** Keys 3 to 7 are in increasing order. */
  lemma LegacyMapSortedMiddle()
    ensures forall i | 3 <= i < 7 :: Text.Precedes(LegacyMap[i].from, LegacyMap[i + 1].from)
  {
    assert Text.PrecedesAt(LegacyMap[3].from, LegacyMap[4].from, 2);
    assert Text.PrecedesAt(LegacyMap[4].from, LegacyMap[5].from, 1);
    assert Text.PrecedesAt(LegacyMap[5].from, LegacyMap[6].from, 1);
    assert Text.PrecedesAt(LegacyMap[6].from, LegacyMap[7].from, 0);
  }

  /** Keys 7 to 14 are in increasing order. */
  lemma LegacyMapSortedTail()
    ensures forall i | 7 <= i < 14 :: Text.Precedes(LegacyMap[i].from, LegacyMap[i + 1].from)
  {
    assert Text.PrecedesAt(LegacyMap[7].from, LegacyMap[8].from, 0);
    assert Text.PrecedesAt(LegacyMap[8].from, LegacyMap[9].from, 0);
    assert Text.PrecedesAt(LegacyMap[9].from, LegacyMap[10].from, 0);
    assert Text.PrecedesAt(LegacyMap[10].from, LegacyMap[11].from, 1);
    assert Text.PrecedesAt(LegacyMap[11].from, LegacyMap[12].from, 1);
    assert Text.PrecedesAt(LegacyMap[12].from, LegacyMap[13].from, 0);
    assert Text.PrecedesAt(LegacyMap[13].from, LegacyMap[14].from, 0);
  }

  /** The legacy keys are declared in strictly increasing order. */
  lemma LegacyMapSorted()
    ensures SortedKeys(LegacyMap)
  {
    LegacyMapSortedIdentities();
    LegacyMapSortedMiddle();
    LegacyMapSortedTail();
  }

  /** No legacy key is repeated, and no legacy key followed by `/` begins another. */
  lemma LegacyMapPrefixFree()
    ensures PrefixFree(LegacyMap) && DistinctSources(LegacyMap)
  {
    LegacyMapSorted();
    SortedKeysPrefixFree(LegacyMap);
  }

  // ----------------------------------------------------------------- plugins

  /** One entry of the plugin loop: a truthy plugin under the entry's key is
      written under its target and then deleted under its key. An identity entry
      therefore removes its plugin. */
  function PluginStep(p: Dict<Value>, a: Alias): Dict<Value> {
    if Truthy(Get(p, a.from)) then Delete(Set(p, a.to, Get(p, a.from)), a.from) else p
  }

  /** The plugin loop over the whole table, in declaration order. Each entry sees
      the plugins as the earlier entries left them. */
  function LegacyPlugins(t: Table, p: Dict<Value>): Dict<Value>
    decreases |t|
  {
    if t == [] then p else LegacyPlugins(t[1..], PluginStep(p, t[0]))
  }

  /** The effect of one entry on every key. */
  lemma PluginStepLookup(p: Dict<Value>, a: Alias, k: string)
    ensures Lookup(PluginStep(p, a), k) ==
      if !Truthy(Get(p, a.from)) then Lookup(p, k)
      else if k == a.from then None
      else if k == a.to then Some(Get(p, a.from))
      else Lookup(p, k)
  {
    var v := Get(p, a.from);
    SetLookup(p, a.to, v, k);
    DeleteLookup(Set(p, a.to, v), a.from, k);
  }

  /** A key that no entry reads or writes keeps its plugin. */
  lemma {:induction false} LegacyPluginsUntouched(t: Table, p: Dict<Value>, k: string)
    requires forall j | 0 <= j < |t| :: t[j].from != k && t[j].to != k
    ensures Lookup(LegacyPlugins(t, p), k) == Lookup(p, k)
    decreases |t|
  {
    if t != [] {
      PluginStepLookup(p, t[0], k);
      assert forall j | 0 <= j < |t| - 1 :: t[1..][j] == t[j + 1];
      LegacyPluginsUntouched(t[1..], PluginStep(p, t[0]), k);
    }
  }

  /** A missing key that no entry writes stays missing. */
  lemma {:induction false} LegacyPluginsKeepsAbsent(t: Table, p: Dict<Value>, k: string)
    requires Lookup(p, k) == None
    requires forall j | 0 <= j < |t| :: t[j].to != k
    ensures Lookup(LegacyPlugins(t, p), k) == None
    decreases |t|
  {
    if t != [] {
      PluginStepLookup(p, t[0], k);
      assert forall j | 0 <= j < |t| - 1 :: t[1..][j] == t[j + 1];
      LegacyPluginsKeepsAbsent(t[1..], PluginStep(p, t[0]), k);
    }
  }

  /** An entry whose plugin is present and truthy, and whose keys no other entry
      disturbs, moves that plugin: the key ends up deleted and, unless the entry is
      an identity, the target holds the plugin. */
  lemma {:induction false} LegacyPluginsMoves(t: Table, p: Dict<Value>, i: nat)
    requires i < |t| && Truthy(Get(p, t[i].from))
    requires forall j | 0 <= j < i :: t[j].from != t[i].from && t[j].to != t[i].from
    requires forall j | i < j < |t| :: t[j].to != t[i].from && t[j].to != t[i].to && t[j].from != t[i].to
    ensures Lookup(LegacyPlugins(t, p), t[i].from) == None
    ensures !Identity(t[i]) ==> Lookup(LegacyPlugins(t, p), t[i].to) == Some(Get(p, t[i].from))
    decreases |t|
  {
    var a, t' := t[0], t[1..];
    var p' := PluginStep(p, a);
    if i == 0 {
      forall j | 0 <= j < |t'| ensures t'[j].to != a.from && t'[j].to != a.to && t'[j].from != a.to {
        assert t'[j] == t[j + 1];
      }
      PluginStepLookup(p, a, a.from);
      PluginStepLookup(p, a, a.to);
      LegacyPluginsKeepsAbsent(t', p', a.from);
      if !Identity(a) {
        LegacyPluginsUntouched(t', p', a.to);
      }
    } else {
      assert t'[i - 1] == t[i];
      forall j | 0 <= j < i - 1 ensures t'[j].from != t[i].from && t'[j].to != t[i].from {
        assert t'[j] == t[j + 1];
      }
      forall j | i - 1 < j < |t'| ensures t'[j].to != t[i].from && t'[j].to != t[i].to && t'[j].from != t[i].to {
        assert t'[j] == t[j + 1];
      }
      PluginStepLookup(p, a, t[i].from);
      assert Get(p', t[i].from) == Get(p, t[i].from);
      LegacyPluginsMoves(t', p', i - 1);
    }
  }

  /** In a table with distinct keys, distinct targets and no chained renames,
      every truthy plugin under a key is moved: its key is gone and, unless the
      entry is an identity, its target holds it. */
  lemma LegacyPluginsMovesAll(t: Table, p: Dict<Value>, i: nat)
    requires DistinctSources(t) && DistinctTargets(t) && Unchained(t)
    requires i < |t| && Truthy(Get(p, t[i].from))
    ensures t[i].from !in Keys(LegacyPlugins(t, p))
    ensures !Identity(t[i]) ==> Lookup(LegacyPlugins(t, p), t[i].to) == Some(Get(p, t[i].from))
  {
    DistinctSourcesAt(t);
    DistinctTargetsAt(t);
    LegacyPluginsMoves(t, p, i);
    LookupNone(LegacyPlugins(t, p), t[i].from);
  }

  /** The legacy table has distinct targets. */
  lemma LegacyMapTargets()
    ensures DistinctTargets(LegacyMap)
  {
    assert forall i, j | 0 <= i < j < |LegacyMap| :: LegacyMap[i].to != LegacyMap[j].to;
    DistinctTargetsAt(LegacyMap);
  }

  /** Exactly the first four legacy entries are identities. */
  lemma LegacyMapIdentities()
    ensures forall i | 0 <= i < |LegacyMap| :: Identity(LegacyMap[i]) <==> i < 4
  {
  }

  /** A name carries the vendor prefix `@elsikora-` or `elsikora-`. */
  predicate Vendored(s: string) {
    Text.StartsWith(s, "@elsikora-") || Text.StartsWith(s, "elsikora-")
  }

  /** A name has a `/` at index 15, right after `@elsikora-react`. */
  predicate SlashAt15(s: string) {
    |s| > 15 && s[15] == '/'
  }

  /** A table whose first `n` entries are identities with vendored keys holding a
      `/` at index 15, whose other keys are not vendored, and whose other targets
      are vendored without that `/`, has no target that is another entry's key. */
  lemma UnchainedByShape(t: Table, n: nat)
    requires forall i, j | 0 <= i < j < |t| :: t[i].from != t[j].from
    requires forall i | 0 <= i < n && i < |t| :: Identity(t[i]) && SlashAt15(t[i].from)
    requires forall j | n <= j < |t| :: !Vendored(t[j].from)
    requires forall i | n <= i < |t| :: Vendored(t[i].to) && !SlashAt15(t[i].to)
    ensures Unchained(t)
  {
    forall i, j | 0 <= i < |t| && 0 <= j < |t| && t[i].to == t[j].from
      ensures i == j
    {
      if i < n {
        assert t[i].from == t[j].from;
      }
    }
  }

  /** The identity keys hold a `/` at index 15. */
  lemma LegacyMapIdentityShapes()
    ensures forall j | 0 <= j < 4 :: Identity(LegacyMap[j]) && SlashAt15(LegacyMap[j].from)
  {
  }

  /** No key of a renaming entry is vendored: none begins with `e`, and none
      begins with `@el`. */
  lemma LegacyMapSourceShapes()
    ensures forall j | 4 <= j < |LegacyMap| :: !Vendored(LegacyMap[j].from)
  {
    forall j | 4 <= j < |LegacyMap| ensures !Vendored(LegacyMap[j].from) {
      var s := LegacyMap[j].from;
      assert s[0] != 'e' && (s[0] != '@' || s[1] != 'e' || s[2] != 'l');
    }
  }

  /** The targets of the renaming entries are vendored names without a `/` at
      index 15. */
  lemma LegacyMapTargetShapes()
    ensures forall i | 4 <= i < |LegacyMap| :: Vendored(LegacyMap[i].to) && !SlashAt15(LegacyMap[i].to)
  {
    forall i | 4 <= i < |LegacyMap| ensures Vendored(LegacyMap[i].to) {
      if i == 8 || i == 9 {
        assert LegacyMap[i].to[..9] == "elsikora-";
      } else {
        assert LegacyMap[i].to[..10] == "@elsikora-";
      }
    }
  }

  /** The only targets of the legacy table that are keys are the identity
      entries' own. */
  lemma LegacyMapUnchained()
    ensures Unchained(LegacyMap)
  {
    LegacyMapPrefixFree();
    DistinctSourcesAt(LegacyMap);
    LegacyMapIdentityShapes();
    LegacyMapSourceShapes();
    LegacyMapTargetShapes();
    UnchainedByShape(LegacyMap, 4);
  }

  /** With the legacy table a present plugin of one of the first four keys is
      deleted outright, and one of the other keys moves to its target. */
  lemma LegacyMapPlugins(p: Dict<Value>, i: nat)
    requires i < |LegacyMap| && Truthy(Get(p, LegacyMap[i].from))
    ensures LegacyMap[i].from !in Keys(LegacyPlugins(LegacyMap, p))
    ensures i < 4 ==> LegacyMap[i].to !in Keys(LegacyPlugins(LegacyMap, p))
    ensures i >= 4 ==> Lookup(LegacyPlugins(LegacyMap, p), LegacyMap[i].to) == Some(Get(p, LegacyMap[i].from))
  {
    LegacyMapPrefixFree();
    LegacyMapTargets();
    LegacyMapUnchained();
    LegacyMapIdentities();
    LegacyPluginsMovesAll(LegacyMap, p, i);
  }

  // ------------------------------------------------------------------- rules

  /** The inner loop body for one rule id and one entry: a matching entry writes
      the current setting under the rewritten id and deletes the old id. The loop
      does not stop at a match. */
  function RuleStep(r: Dict<Value>, rule: string, a: Alias): Dict<Value> {
    if Matches(a.from, rule) then Delete(Set(r, Rewrite(a, rule), Get(r, rule)), rule) else r
  }

  /** The inner loop over the whole table for one rule id. */
  function MoveRule(t: Table, r: Dict<Value>, rule: string): Dict<Value>
    decreases |t|
  {
    if t == [] then r else MoveRule(t[1..], RuleStep(r, rule, t[0]), rule)
  }

  /** The outer loop over a list of rule ids. */
  function MoveRules(t: Table, r: Dict<Value>, ks: seq<string>): Dict<Value>
    decreases |ks|
  {
    if ks == [] then r else MoveRules(t, MoveRule(t, r, ks[0]), ks[1..])
  }

  /** The rules pass: the ids are snapshotted before the loop, so ids written
      during the pass are never visited. */
  function LegacyRules(t: Table, r: Dict<Value>): Dict<Value> {
    MoveRules(t, r, Keys(r))
  }

  /** A rule id that no entry matches is left alone by the inner loop. */
  lemma {:induction false} MoveRuleUnmatched(t: Table, r: Dict<Value>, rule: string)
    requires forall j | 0 <= j < |t| :: !Matches(t[j].from, rule)
    ensures MoveRule(t, r, rule) == r
    decreases |t|
  {
    if t != [] {
      assert forall j | 0 <= j < |t| - 1 :: t[1..][j] == t[j + 1];
      MoveRuleUnmatched(t[1..], r, rule);
    }
  }

  /** When exactly one entry matches, the inner loop moves the setting to the
      rewritten id and deletes the old id; for an identity entry that deletes
      the rule. */
  lemma {:induction false} MoveRuleUnique(t: Table, r: Dict<Value>, rule: string, i: nat)
    requires i < |t| && Matches(t[i].from, rule)
    requires forall j | 0 <= j < |t| && j != i :: !Matches(t[j].from, rule)
    ensures MoveRule(t, r, rule) == Delete(Set(r, LegacyRuleName(t, rule), Get(r, rule)), rule)
    decreases |t|
  {
    assert forall j | 0 <= j < |t| - 1 :: t[1..][j] == t[j + 1];
    if i == 0 {
      MoveRuleUnmatched(t[1..], RuleStep(r, rule, t[0]), rule);
      assert IsFirstMatch(t, rule, 0);
      RewriteMatched(t[0], rule);
    } else {
      MoveRuleUnique(t[1..], r, rule, i - 1);
      assert IsFirstMatch(t[1..], rule, i - 1);
      assert IsFirstMatch(t, rule, i);
    }
  }

  /** A rule id is moved by the table: some entry matches it. */
  predicate Moved(t: Table, rule: string) {
    exists j | 0 <= j < |t| :: Matches(t[j].from, rule)
  }

  /** On a prefix-free table the inner loop either leaves the rules alone (no
      match) or moves the one setting to the id the legacy `formatRuleName` gives. */
  lemma MoveRulePrefixFree(t: Table, r: Dict<Value>, rule: string)
    requires PrefixFree(t)
    ensures MoveRule(t, r, rule) ==
      if Moved(t, rule) then Delete(Set(r, LegacyRuleName(t, rule), Get(r, rule)), rule) else r
  {
    if Moved(t, rule) {
      var i :| 0 <= i < |t| && Matches(t[i].from, rule);
      forall j | 0 <= j < |t| && j != i ensures !Matches(t[j].from, rule) {
        if Matches(t[j].from, rule) {
          PrefixFreeUniqueMatch(t, rule, i, j);
        }
      }
      MoveRuleUnique(t, r, rule, i);
    } else {
      MoveRuleUnmatched(t, r, rule);
    }
  }

  /** The effect of the inner loop for one id on every key, on a prefix-free table. */
  lemma MoveRuleLookup(t: Table, r: Dict<Value>, rule: string, k: string)
    requires PrefixFree(t)
    ensures Lookup(MoveRule(t, r, rule), k) ==
      if !Moved(t, rule) then Lookup(r, k)
      else if k == rule then None
      else if k == LegacyRuleName(t, rule) then Some(Get(r, rule))
      else Lookup(r, k)
  {
    MoveRulePrefixFree(t, r, rule);
    if Moved(t, rule) {
      var n := LegacyRuleName(t, rule);
      SetLookup(r, n, Get(r, rule), k);
      DeleteLookup(Set(r, n, Get(r, rule)), rule, k);
    }
  }

  /** A key that no moved id is, or is rewritten to, keeps its setting through the
      outer loop. */
  lemma {:induction false} MoveRulesUntouched(t: Table, r: Dict<Value>, ks: seq<string>, k: string)
    requires PrefixFree(t)
    requires forall j | 0 <= j < |ks| && Moved(t, ks[j]) :: ks[j] != k && LegacyRuleName(t, ks[j]) != k
    ensures Lookup(MoveRules(t, r, ks), k) == Lookup(r, k)
    decreases |ks|
  {
    if ks != [] {
      MoveRuleLookup(t, r, ks[0], k);
      assert forall j | 0 <= j < |ks| - 1 :: ks[1..][j] == ks[j + 1];
      MoveRulesUntouched(t, MoveRule(t, r, ks[0]), ks[1..], k);
    }
  }

  /** A key that is missing and that no moved id is rewritten to stays missing. */
  lemma {:induction false} MoveRulesKeepsAbsent(t: Table, r: Dict<Value>, ks: seq<string>, k: string)
    requires PrefixFree(t) && Lookup(r, k) == None
    requires forall j | 0 <= j < |ks| && Moved(t, ks[j]) :: LegacyRuleName(t, ks[j]) != k
    ensures Lookup(MoveRules(t, r, ks), k) == None
    decreases |ks|
  {
    if ks != [] {
      MoveRuleLookup(t, r, ks[0], k);
      assert forall j | 0 <= j < |ks| - 1 :: ks[1..][j] == ks[j + 1];
      MoveRulesKeepsAbsent(t, MoveRule(t, r, ks[0]), ks[1..], k);
    }
  }

  /** The first id of the snapshot, when moved and not disturbed by the later
      steps, ends up deleted, with its setting under the new id unless the
      rewrite is the id itself. */
  lemma MoveRulesMovesFirst(t: Table, r: Dict<Value>, ks: seq<string>)
    requires PrefixFree(t)
    requires 0 < |ks| && Moved(t, ks[0])
    requires forall j | 0 < j < |ks| && Moved(t, ks[j]) ::
      LegacyRuleName(t, ks[j]) != ks[0] && ks[j] != LegacyRuleName(t, ks[0]) && LegacyRuleName(t, ks[j]) != LegacyRuleName(t, ks[0])
    ensures Lookup(MoveRules(t, r, ks), ks[0]) == None
    ensures LegacyRuleName(t, ks[0]) != ks[0] ==>
      Lookup(MoveRules(t, r, ks), LegacyRuleName(t, ks[0])) == Some(Get(r, ks[0]))
  {
    var rule := ks[0];
    var r' := MoveRule(t, r, rule);
    var n, ks' := LegacyRuleName(t, rule), ks[1..];
    forall j | 0 <= j < |ks'| && Moved(t, ks'[j])
      ensures LegacyRuleName(t, ks'[j]) != rule && ks'[j] != n && LegacyRuleName(t, ks'[j]) != n
    {
      assert ks'[j] == ks[j + 1];
    }
    MoveRuleLookup(t, r, rule, rule);
    MoveRuleLookup(t, r, rule, n);
    MoveRulesKeepsAbsent(t, r', ks', rule);
    if n != rule {
      MoveRulesUntouched(t, r', ks', n);
    }
  }

  /** A moved id whose setting no earlier step disturbed and whose new id no later
      step disturbs ends up deleted, with its setting under the new id unless the
      rewrite is the id itself. */
  lemma {:induction false} MoveRulesMoves(t: Table, r: Dict<Value>, ks: seq<string>, i: nat)
    requires PrefixFree(t)
    requires i < |ks| && Moved(t, ks[i])
    requires forall j | 0 <= j < i && Moved(t, ks[j]) :: ks[j] != ks[i] && LegacyRuleName(t, ks[j]) != ks[i]
    requires forall j | i < j < |ks| && Moved(t, ks[j]) ::
      LegacyRuleName(t, ks[j]) != ks[i] && ks[j] != LegacyRuleName(t, ks[i]) && LegacyRuleName(t, ks[j]) != LegacyRuleName(t, ks[i])
    ensures Lookup(MoveRules(t, r, ks), ks[i]) == None
    ensures LegacyRuleName(t, ks[i]) != ks[i] ==>
      Lookup(MoveRules(t, r, ks), LegacyRuleName(t, ks[i])) == Some(Get(r, ks[i]))
    decreases |ks|
  {
    if i == 0 {
      MoveRulesMovesFirst(t, r, ks);
    } else {
      var r', ks' := MoveRule(t, r, ks[0]), ks[1..];
      assert ks'[i - 1] == ks[i];
      forall j | 0 <= j < i - 1 && Moved(t, ks'[j])
        ensures ks'[j] != ks'[i - 1] && LegacyRuleName(t, ks'[j]) != ks'[i - 1]
      {
        assert ks'[j] == ks[j + 1];
      }
      forall j | i - 1 < j < |ks'| && Moved(t, ks'[j])
        ensures LegacyRuleName(t, ks'[j]) != ks'[i - 1] && ks'[j] != LegacyRuleName(t, ks'[i - 1])
        ensures LegacyRuleName(t, ks'[j]) != LegacyRuleName(t, ks'[i - 1])
      {
        assert ks'[j] == ks[j + 1];
      }
      MoveRuleLookup(t, r, ks[0], ks[i]);
      assert Get(r', ks[i]) == Get(r, ks[i]);
      MoveRulesMoves(t, r', ks', i - 1);
    }
  }

  /** The rename of a rules object is clean when no rewritten id lands on an
      existing id or on the rewrite of another id. */
  predicate CleanRename(t: Table, r: Dict<Value>) {
    && (forall i, j | 0 <= i < |r| && 0 <= j < |r| && Moved(t, r[i].key) :: LegacyRuleName(t, r[i].key) != r[j].key)
    && (forall i, j | 0 <= i < |r| && 0 <= j < |r| && i != j && Moved(t, r[i].key) && Moved(t, r[j].key) ::
          LegacyRuleName(t, r[i].key) != LegacyRuleName(t, r[j].key))
  }

  /** On a prefix-free table with a clean rename, every matched rule is moved to
      the id the legacy `formatRuleName` gives it and its old id is gone, and every
      unmatched rule keeps its setting. */
  lemma LegacyRulesMoveAll(t: Table, r: Dict<Value>, i: nat)
    requires PrefixFree(t) && WellFormed(r) && CleanRename(t, r)
    requires i < |r|
    ensures Moved(t, r[i].key) ==> r[i].key !in Keys(LegacyRules(t, r))
    ensures Moved(t, r[i].key) ==> Lookup(LegacyRules(t, r), LegacyRuleName(t, r[i].key)) == Some(r[i].value)
    ensures !Moved(t, r[i].key) ==> Lookup(LegacyRules(t, r), r[i].key) == Some(r[i].value)
  {
    var ks := Keys(r);
    LookupAt(r, i);
    if Moved(t, r[i].key) {
      forall j | 0 <= j < i && Moved(t, ks[j]) ensures ks[j] != ks[i] {
        assert Keys(r)[j] != Keys(r)[i];
      }
      MoveRulesMoves(t, r, ks, i);
      LookupNone(LegacyRules(t, r), r[i].key);
    } else {
      MoveRulesUntouched(t, r, ks, r[i].key);
    }
  }

  // --------------------------------------------------------------- fragments

  /** The legacy `formatConfig` on one fragment: the same fragment with its
      plugins and rules rewritten in place. */
  function LegacyFormatOne(t: Table, c: Config): (r: Config)
    ensures r.fields == c.fields
    ensures r.plugins.Some? <==> c.plugins.Some?
    ensures r.rules.Some? <==> c.rules.Some?
    ensures c.plugins.None? && c.rules.None? ==> r == c
  {
    Config(
      c.fields,
      if c.plugins.Some? then Some(LegacyPlugins(t, c.plugins.value)) else None,
      if c.rules.Some? then Some(LegacyRules(t, c.rules.value)) else None)
  }

  /** The legacy `formatConfig`: the same fragments, in the same order, each in
      its rewritten state. */
  function LegacyFormatConfig(t: Table, cs: seq<Config>): (r: seq<Config>)
    ensures |r| == |cs|
    ensures forall i | 0 <= i < |cs| :: r[i] == LegacyFormatOne(t, cs[i])
  {
    if cs == [] then [] else [LegacyFormatOne(t, cs[0])] + LegacyFormatConfig(t, cs[1..])
  }
}
