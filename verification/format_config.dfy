/** The configuration remapper: builds fresh fragments whose plugin keys and rule
    ids are moved into the vendor namespaces of an alias table, leaving every
    other property as it was. */
module FormatConfig {
  import opened Wrappers
  import opened Dicts
  import opened Js
  import opened AliasTable
  import opened RuleName
  import opened LintConfig
  import Seqs

  // ---------------------------------------------------------------- plugins

  /** Entry `a` fires on the plugins `p`: its key holds a truthy plugin. */
  predicate Fires(p: Dict<Value>, a: Alias) {
    Truthy(Get(p, a.from))
  }

  /** First plugin pass: for every table entry, in the given order, that fires,
      store its plugin under the entry's target. Every read is from the original
      plugins, never from what has been written so far. */
  function AddAliased(sorted: Table, p: Dict<Value>, acc: Dict<Value>): Dict<Value>
    decreases |sorted|
  {
    if sorted == [] then acc
    else
      var a := sorted[0];
      AddAliased(sorted[1..], p, if Fires(p, a) then Set(acc, a.to, Get(p, a.from)) else acc)
  }

  /** The first pass adds exactly the targets of the entries that fire. */
  lemma {:induction false} AddAliasedKeys(sorted: Table, p: Dict<Value>, acc: Dict<Value>)
    ensures forall k :: k in Keys(AddAliased(sorted, p, acc)) <==>
      k in Keys(acc) || exists a | a in sorted :: a.to == k && Fires(p, a)
    decreases |sorted|
  {
    if sorted != [] {
      var a := sorted[0];
      SetKeys(acc, a.to, Get(p, a.from));
      AddAliasedKeys(sorted[1..], p, if Fires(p, a) then Set(acc, a.to, Get(p, a.from)) else acc);
      assert forall b | b in sorted :: b == a || b in sorted[1..];
    }
  }

  /** A key that no firing entry targets keeps its value through the first pass. */
  lemma {:induction false} AddAliasedElsewhere(sorted: Table, p: Dict<Value>, acc: Dict<Value>, k: string)
    requires forall a | a in sorted && Fires(p, a) :: a.to != k
    ensures Lookup(AddAliased(sorted, p, acc), k) == Lookup(acc, k)
    decreases |sorted|
  {
    if sorted != [] {
      var a := sorted[0];
      SetLookup(acc, a.to, Get(p, a.from), k);
      AddAliasedElsewhere(sorted[1..], p, if Fires(p, a) then Set(acc, a.to, Get(p, a.from)) else acc, k);
    }
  }

  /** A value that every firing entry for its key would write again survives the
      first pass. */
  lemma {:induction false} AddAliasedKeeps(sorted: Table, p: Dict<Value>, acc: Dict<Value>, k: string, v: Value)
    requires Lookup(acc, k) == Some(v)
    requires forall a | a in sorted && Fires(p, a) && a.to == k :: Get(p, a.from) == v
    ensures Lookup(AddAliased(sorted, p, acc), k) == Some(v)
    decreases |sorted|
  {
    if sorted != [] {
      var a := sorted[0];
      SetLookup(acc, a.to, Get(p, a.from), k);
      AddAliasedKeeps(sorted[1..], p, if Fires(p, a) then Set(acc, a.to, Get(p, a.from)) else acc, k, v);
    }
  }

  /** Last writer wins: the plugin stored under a target is the one of the last
      firing entry, in the given order, with that target. */
  lemma {:induction false} AddAliasedWinner(sorted: Table, p: Dict<Value>, acc: Dict<Value>, i: nat)
    requires i < |sorted| && Fires(p, sorted[i])
    requires forall j | i < j < |sorted| && Fires(p, sorted[j]) && sorted[j].to == sorted[i].to :: sorted[j].from == sorted[i].from
    ensures Lookup(AddAliased(sorted, p, acc), sorted[i].to) == Some(Get(p, sorted[i].from))
    decreases |sorted|
  {
    var a := sorted[0];
    var acc' := if Fires(p, a) then Set(acc, a.to, Get(p, a.from)) else acc;
    if i == 0 {
      forall b | b in sorted[1..] && Fires(p, b) && b.to == a.to
        ensures Get(p, b.from) == Get(p, a.from)
      {
        var j :| 0 <= j < |sorted[1..]| && sorted[1..][j] == b;
        assert sorted[j + 1] == b;
      }
      SetLookup(acc, a.to, Get(p, a.from), a.to);
      AddAliasedKeeps(sorted[1..], p, acc', a.to, Get(p, a.from));
    } else {
      assert forall j | i - 1 < j < |sorted| - 1 :: sorted[1..][j] == sorted[j + 1];
      AddAliasedWinner(sorted[1..], p, acc', i - 1);
    }
  }

  /** Second plugin pass: every plugin of `rest` whose key is not among the
      table keys `skip` is copied under its own key. */
  function AddUnaliased<V>(skip: seq<string>, rest: Dict<V>, acc: Dict<V>): Dict<V>
    decreases |rest|
  {
    if rest == [] then acc
    else
      var e := rest[0];
      AddUnaliased(skip, rest[1..], if e.key !in skip then Set(acc, e.key, e.value) else acc)
  }

  /** The second pass adds exactly the keys of `rest` that are not table keys. */
  lemma {:induction false} AddUnaliasedKeys<V>(skip: seq<string>, rest: Dict<V>, acc: Dict<V>)
    ensures forall k :: k in Keys(AddUnaliased(skip, rest, acc)) <==> k in Keys(acc) || (k in Keys(rest) && k !in skip)
    decreases |rest|
  {
    if rest != [] {
      var e := rest[0];
      SetKeys(acc, e.key, e.value);
      AddUnaliasedKeys(skip, rest[1..], if e.key !in skip then Set(acc, e.key, e.value) else acc);
      assert rest == [e] + rest[1..];
      KeysCons(e, rest[1..]);
    }
  }

  /** A key the second pass does not copy keeps its value. */
  lemma {:induction false} AddUnaliasedElsewhere<V>(skip: seq<string>, rest: Dict<V>, acc: Dict<V>, k: string)
    requires k !in Keys(rest) || k in skip
    ensures Lookup(AddUnaliased(skip, rest, acc), k) == Lookup(acc, k)
    decreases |rest|
  {
    if rest != [] {
      var e := rest[0];
      assert rest == [e] + rest[1..];
      KeysCons(e, rest[1..]);
      SetLookup(acc, e.key, e.value, k);
      AddUnaliasedElsewhere(skip, rest[1..], if e.key !in skip then Set(acc, e.key, e.value) else acc, k);
    }
  }

  /** The second pass copies every plugin whose key is not a table key. */
  lemma {:induction false} AddUnaliasedCopies<V>(skip: seq<string>, rest: Dict<V>, acc: Dict<V>, i: nat)
    requires WellFormed(rest) && i < |rest|
    requires rest[i].key !in skip
    ensures Lookup(AddUnaliased(skip, rest, acc), rest[i].key) == Some(rest[i].value)
    decreases |rest|
  {
    var e := rest[0];
    var acc' := if e.key !in skip then Set(acc, e.key, e.value) else acc;
    WellFormedTail(rest);
    if i == 0 {
      SetLookup(acc, e.key, e.value, e.key);
      AddUnaliasedElsewhere(skip, rest[1..], acc', e.key);
    } else {
      assert rest[1..][i - 1] == rest[i];
      AddUnaliasedCopies(skip, rest[1..], acc', i - 1);
    }
  }

  /** The plugins of a fragment after remapping. */
  function RemapPlugins(t: Table, p: Dict<Value>): Dict<Value> {
    AddUnaliased(Sources(t), p, AddAliased(SortByKeyLength(t), p, []))
  }

  /** The remapped plugins hold the target of every entry that fires and every
      plugin whose key is not a table key, and nothing else: a table key never
      survives under its own name. */
  lemma RemapPluginsKeys(t: Table, p: Dict<Value>)
    ensures forall k :: k in Keys(RemapPlugins(t, p)) <==>
      (exists a | a in t :: a.to == k && Fires(p, a)) || (k in Keys(p) && k !in Sources(t))
  {
    var sorted := SortByKeyLength(t);
    SortByKeyLengthMembers(t);
    AddAliasedKeys(sorted, p, []);
    AddUnaliasedKeys(Sources(t), p, AddAliased(sorted, p, []));
  }

  /** A plugin whose key is not a table key is kept under its own key with its
      own value. */
  lemma RemapPluginsKeepsUnaliased(t: Table, p: Dict<Value>, i: nat)
    requires WellFormed(p) && i < |p|
    requires p[i].key !in Sources(t)
    ensures Lookup(RemapPlugins(t, p), p[i].key) == Some(p[i].value)
  {
    AddUnaliasedCopies(Sources(t), p, AddAliased(SortByKeyLength(t), p, []), i);
  }

  /** With distinct targets, a plugin whose key is a table key and whose value is
      truthy is moved to the entry's target, with the same value, unless the
      fragment itself has an unaliased plugin of that name, which is copied over it. */
  lemma RemapPluginsRenames(t: Table, p: Dict<Value>, a: Alias)
    requires DistinctTargets(t)
    requires a in t && Fires(p, a)
    requires a.to !in Keys(p) || a.to in Sources(t)
    ensures Lookup(RemapPlugins(t, p), a.to) == Some(Get(p, a.from))
  {
    var sorted := SortByKeyLength(t);
    SortByKeyLengthMembers(t);
    DistinctTargetsAt(t);
    var i :| 0 <= i < |sorted| && sorted[i] == a;
    forall j | i < j < |sorted| && Fires(p, sorted[j]) && sorted[j].to == a.to
      ensures sorted[j].from == a.from
    {
      assert sorted[j] in t;
      SameTargetSameEntry(t, sorted[j], a);
    }
    AddAliasedWinner(sorted, p, [], i);
    AddUnaliasedElsewhere(Sources(t), p, AddAliased(sorted, p, []), a.to);
  }

  /** In a table with distinct targets an entry is determined by its target. */
  lemma SameTargetSameEntry(t: Table, a: Alias, b: Alias)
    requires DistinctTargets(t)
    requires a in t && b in t && a.to == b.to
    ensures a == b
  {
    DistinctTargetsAt(t);
    var x :| 0 <= x < |t| && t[x] == a;
    var y :| 0 <= y < |t| && t[y] == b;
    assert x == y;
  }

  /** When two firing entries share a target, the one with the shorter key comes
      later in the sorted table and its plugin is the one kept. */
  lemma RemapPluginsShorterKeyWins(t: Table, p: Dict<Value>, a: Alias, b: Alias)
    requires a in t && b in t && a.to == b.to
    requires Fires(p, a) && Fires(p, b) && |b.from| < |a.from|
    requires forall c | c in t && Fires(p, c) && c.to == a.to :: c == a || c == b
    requires a.to !in Keys(p) || a.to in Sources(t)
    ensures Lookup(RemapPlugins(t, p), a.to) == Some(Get(p, b.from))
  {
    var sorted := SortByKeyLength(t);
    SortByKeyLengthMembers(t);
    SortByKeyLengthSorted(t);
    var i :| 0 <= i < |sorted| && sorted[i] == b;
    forall j | i < j < |sorted| && Fires(p, sorted[j]) && sorted[j].to == b.to
      ensures sorted[j].from == b.from
    {
      assert sorted[j] in t;
      assert |sorted[i].from| >= |sorted[j].from|;
    }
    AddAliasedWinner(sorted, p, [], i);
    AddUnaliasedElsewhere(Sources(t), p, AddAliased(sorted, p, []), a.to);
  }

  /** An entry whose plugin is missing or falsy contributes nothing: its plugin is
      kept neither under the target nor under its own key. */
  lemma RemapPluginsDropsFalsy(t: Table, p: Dict<Value>, a: Alias)
    requires a in t && !Fires(p, a)
    requires forall c | c in t && c.to == a.to :: c == a
    requires forall c | c in t :: c.to != a.from
    requires a.to !in Keys(p) || a.to in Sources(t)
    ensures a.to !in Keys(RemapPlugins(t, p))
    ensures a.from !in Keys(RemapPlugins(t, p))
  {
    RemapPluginsKeys(t, p);
    var x :| 0 <= x < |t| && t[x] == a;
    assert Sources(t)[x] == a.from;
  }

  /** Reading the two plugins of a two-plugin fragment. */
  lemma GetPair(x: Value, y: Value, a: string, b: string)
    requires a != b
    ensures Get([Entry(a, x), Entry(b, y)], a) == x
    ensures Get([Entry(a, x), Entry(b, y)], b) == y
  {
    assert [Entry(a, x), Entry(b, y)] == [Entry(a, x)] + [Entry(b, y)];
    LookupCons(Entry(a, x), [Entry(b, y)], a);
    LookupCons(Entry(a, x), [Entry(b, y)], b);
    LookupCons(Entry(b, y), [], b);
  }

  /** Renames read the original plugins: with the swapping table A→B, B→A both
      plugins survive, each under the other's name. */
  lemma SwapKeepsBoth(x: Value, y: Value, a: string, b: string)
    requires a != b && Truthy(x) && Truthy(y)
    ensures Lookup(RemapPlugins([Alias(a, b), Alias(b, a)], [Entry(a, x), Entry(b, y)]), b) == Some(x)
    ensures Lookup(RemapPlugins([Alias(a, b), Alias(b, a)], [Entry(a, x), Entry(b, y)]), a) == Some(y)
  {
    var t := [Alias(a, b), Alias(b, a)];
    var p := [Entry(a, x), Entry(b, y)];
    assert Keys(p) == [a, b];
    assert Sources(t) == [a, b];
    assert Targets(t) == [b, a];
    GetPair(x, y, a, b);
    RemapPluginsRenames(t, p, t[0]);
    RemapPluginsRenames(t, p, t[1]);
  }

  /** After the swap nothing but the two plugins remains. */
  lemma SwapKeepsOnlyBoth(x: Value, y: Value, a: string, b: string)
    requires a != b && Truthy(x) && Truthy(y)
    ensures forall k :: k in Keys(RemapPlugins([Alias(a, b), Alias(b, a)], [Entry(a, x), Entry(b, y)])) <==> k == a || k == b
  {
    var t := [Alias(a, b), Alias(b, a)];
    var p := [Entry(a, x), Entry(b, y)];
    assert Keys(p) == [a, b];
    assert Sources(t) == [a, b];
    GetPair(x, y, a, b);
    RemapPluginsKeys(t, p);
  }

  // ------------------------------------------------------------------ rules

  /** The inner loop over the sorted table for one rule id: the rewrite by the
      first matching entry, after which the loop stops. */
  function RenameRule(sorted: Table, rule: string): Option<string> {
    if sorted == [] then None
    else if Matches(sorted[0].from, rule) then Some(Rewrite(sorted[0], rule))
    else RenameRule(sorted[1..], rule)
  }

  /** The key a rule is stored under: its rewrite, or itself when nothing matched. */
  function RuleKey(t: Table, rule: string): string {
    RenameRule(SortByKeyLength(t), rule).GetOr(rule)
  }

  /** The loop with `isReplaced` and `break` rewrites a rule by the first match
      of the sorted table, or leaves it alone when nothing matches. */
  lemma {:induction false} RenameRuleIsFirstMatch(sorted: Table, rule: string)
    ensures RenameRule(sorted, rule) == match FirstMatch(sorted, rule) case None => None case Some(a) => Some(Rewrite(a, rule))
  {
    if sorted != [] && !Matches(sorted[0].from, rule) {
      RenameRuleIsFirstMatch(sorted[1..], rule);
    }
  }

  /** Each rule is stored in the remapped rules under exactly the id the rule-name
      remapper returns for it. */
  lemma RuleKeyIsFormatRuleName(t: Table, rule: string)
    ensures RuleKey(t, rule) == FormatRuleName(t, rule)
  {
    RenameRuleIsFirstMatch(SortByKeyLength(t), rule);
  }

  /** Copies every rule of `rest`, in order, into `acc` under the id `rename`
      gives it. */
  function AddRules<V>(rename: string -> string, rest: Dict<V>, acc: Dict<V>): Dict<V>
    decreases |rest|
  {
    if rest == [] then acc
    else AddRules(rename, rest[1..], Set(acc, rename(rest[0].key), rest[0].value))
  }

  /** The rule pass for a table: each rule id goes to its `RuleKey`. */
  function RuleKeys(t: Table): string -> string {
    rule => RuleKey(t, rule)
  }

  /** The rules of a fragment after remapping. */
  function RemapRules<V>(t: Table, r: Dict<V>): Dict<V> {
    AddRules(RuleKeys(t), r, [])
  }

  /** Every rule renamed in place, in the original order. */
  function Rekeyed<V>(rename: string -> string, r: Dict<V>): Dict<V> {
    if r == [] then [] else [Entry(rename(r[0].key), r[0].value)] + Rekeyed(rename, r[1..])
  }

  /** Reference definition: every rule renamed in place by the rule-name
      remapper, in the original order. */
  function Renamed<V>(t: Table, r: Dict<V>): Dict<V> {
    if r == [] then [] else [Entry(FormatRuleName(t, r[0].key), r[0].value)] + Renamed(t, r[1..])
  }

  /** The renamed rules keep the count and order of the original ones; each keeps
      its setting under its remapped id. */
  lemma {:induction false} RenamedAt<V>(t: Table, r: Dict<V>)
    ensures |Renamed(t, r)| == |r|
    ensures forall i | 0 <= i < |r| :: Renamed(t, r)[i] == Entry(FormatRuleName(t, r[i].key), r[i].value)
  {
    if r != [] {
      RenamedAt(t, r[1..]);
      assert forall i | 1 <= i < |r| :: r[1..][i - 1] == r[i];
    }
  }

  lemma {:induction false} RekeyedAt<V>(rename: string -> string, r: Dict<V>)
    ensures |Rekeyed(rename, r)| == |r|
    ensures forall i | 0 <= i < |r| :: Rekeyed(rename, r)[i] == Entry(rename(r[i].key), r[i].value)
  {
    if r != [] {
      RekeyedAt(rename, r[1..]);
      assert forall i | 1 <= i < |r| :: r[1..][i - 1] == r[i];
    }
  }

  lemma {:induction false} AddRulesKeys<V>(rename: string -> string, rest: Dict<V>, acc: Dict<V>)
    ensures forall k :: k in Keys(AddRules(rename, rest, acc)) <==> k in Keys(acc) || exists i | 0 <= i < |rest| :: rename(rest[i].key) == k
    decreases |rest|
  {
    if rest != [] {
      SetKeys(acc, rename(rest[0].key), rest[0].value);
      AddRulesKeys(rename, rest[1..], Set(acc, rename(rest[0].key), rest[0].value));
      assert forall i | 1 <= i < |rest| :: rest[i] == rest[1..][i - 1];
    }
  }

  lemma {:induction false} AddRulesElsewhere<V>(rename: string -> string, rest: Dict<V>, acc: Dict<V>, k: string)
    requires forall i | 0 <= i < |rest| :: rename(rest[i].key) != k
    ensures Lookup(AddRules(rename, rest, acc), k) == Lookup(acc, k)
    decreases |rest|
  {
    if rest != [] {
      assert forall i | 1 <= i < |rest| :: rest[1..][i - 1] == rest[i];
      SetLookup(acc, rename(rest[0].key), rest[0].value, k);
      AddRulesElsewhere(rename, rest[1..], Set(acc, rename(rest[0].key), rest[0].value), k);
    }
  }

  lemma {:induction false} AddRulesValue<V>(rename: string -> string, rest: Dict<V>, acc: Dict<V>, i: nat)
    requires i < |rest|
    requires forall j | i < j < |rest| :: rename(rest[j].key) != rename(rest[i].key)
    ensures Lookup(AddRules(rename, rest, acc), rename(rest[i].key)) == Some(rest[i].value)
    decreases |rest|
  {
    var acc' := Set(acc, rename(rest[0].key), rest[0].value);
    assert forall j | 1 <= j < |rest| :: rest[1..][j - 1] == rest[j];
    if i == 0 {
      SetLookup(acc, rename(rest[0].key), rest[0].value, rename(rest[0].key));
      AddRulesElsewhere(rename, rest[1..], acc', rename(rest[0].key));
    } else {
      AddRulesValue(rename, rest[1..], acc', i - 1);
    }
  }

  lemma {:induction false} AddRulesDistinct<V>(rename: string -> string, rest: Dict<V>, acc: Dict<V>)
    requires forall i, j | 0 <= i < j < |rest| :: rename(rest[i].key) != rename(rest[j].key)
    requires forall i | 0 <= i < |rest| :: rename(rest[i].key) !in Keys(acc)
    ensures AddRules(rename, rest, acc) == acc + Rekeyed(rename, rest)
    decreases |rest|
  {
    if rest == [] {
      assert acc + Rekeyed(rename, rest) == acc;
    } else {
      var tail := rest[1..];
      var e := Entry(rename(rest[0].key), rest[0].value);
      var acc' := Set(acc, e.key, e.value);
      SetNew(acc, e.key, e.value);
      KeysSnoc(acc, e);
      forall i, j | 0 <= i < j < |tail| ensures rename(tail[i].key) != rename(tail[j].key) {
        assert tail[i] == rest[i + 1] && tail[j] == rest[j + 1];
      }
      forall i | 0 <= i < |tail| ensures rename(tail[i].key) !in Keys(acc') {
        assert tail[i] == rest[i + 1];
      }
      AddRulesDistinct(rename, tail, acc');
      assert Rekeyed(rename, rest) == [e] + Rekeyed(rename, tail);
      Seqs.AppendAssoc(acc, [e], Rekeyed(rename, tail));
    }
  }

  /** The rule pass of a table renames each rule exactly as the rule-name remapper does. */
  lemma RuleKeysAreFormatRuleName(t: Table)
    ensures forall rule :: RuleKeys(t)(rule) == FormatRuleName(t, rule)
  {
    forall rule ensures RuleKeys(t)(rule) == FormatRuleName(t, rule) {
      RuleKeyIsFormatRuleName(t, rule);
    }
  }

  /** The remapped rules hold exactly the remapped ids of the original rules. */
  lemma RemapRulesKeys<V>(t: Table, r: Dict<V>)
    ensures forall k :: k in Keys(RemapRules(t, r)) <==> exists i | 0 <= i < |r| :: FormatRuleName(t, r[i].key) == k
  {
    AddRulesKeys(RuleKeys(t), r, []);
    RuleKeysAreFormatRuleName(t);
  }

  /** A rule's setting is found under its remapped id, unless a later rule is
      remapped to the same id and overwrites it. */
  lemma RemapRulesValue<V>(t: Table, r: Dict<V>, i: nat)
    requires i < |r|
    requires forall j | i < j < |r| :: FormatRuleName(t, r[j].key) != FormatRuleName(t, r[i].key)
    ensures Lookup(RemapRules(t, r), FormatRuleName(t, r[i].key)) == Some(r[i].value)
  {
    RuleKeysAreFormatRuleName(t);
    AddRulesValue(RuleKeys(t), r, [], i);
  }

  /** When no two rules are remapped to the same id, the remapped rules are the
      original rules renamed in place: same count, same order, same settings. */
  lemma RemapRulesInOrder<V>(t: Table, r: Dict<V>)
    requires forall i, j | 0 <= i < j < |r| :: FormatRuleName(t, r[i].key) != FormatRuleName(t, r[j].key)
    ensures RemapRules(t, r) == Renamed(t, r)
  {
    RuleKeysAreFormatRuleName(t);
    AddRulesDistinct(RuleKeys(t), r, []);
    RekeyedAt(RuleKeys(t), r);
    RenamedAt(t, r);
    assert [] + Rekeyed(RuleKeys(t), r) == Renamed(t, r);
  }

  // -------------------------------------------------------------- fragments

  /** `formatConfig` on one fragment: a fresh fragment with the same other
      properties, and remapped `plugins` and `rules` exactly when the input had them. */
  function FormatOne(t: Table, c: Config): (r: Config)
    ensures r.fields == c.fields
    ensures r.plugins.Some? <==> c.plugins.Some?
    ensures r.rules.Some? <==> c.rules.Some?
  {
    Config(
      c.fields,
      if c.plugins.Some? then Some(RemapPlugins(t, c.plugins.value)) else None,
      if c.rules.Some? then Some(RemapRules(t, c.rules.value)) else None)
  }

  /** `formatConfig`: one remapped fragment per input fragment, in the same order. */
  function FormatConfig(t: Table, cs: seq<Config>): (r: seq<Config>)
    ensures |r| == |cs|
    ensures forall i | 0 <= i < |cs| :: r[i] == FormatOne(t, cs[i])
  {
    if cs == [] then [] else [FormatOne(t, cs[0])] + FormatConfig(t, cs[1..])
  }
}
