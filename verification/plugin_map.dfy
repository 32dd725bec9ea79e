/** The shipped alias table: every third-party plugin namespace the package
    re-exports, and the vendor namespace it is re-exported under. */
module PluginMap {
  import opened Text
  import opened Seqs
  import opened AliasTable
  import opened RuleName

  /** `PLUGIN_MAP`, in declaration order. */
  const PluginMap: Table := [
    Alias("@eslint-react", "@elsikora-react"),
    Alias("@eslint-react/dom", "@elsikora-react/dom"),
    Alias("@eslint-react/hooks-extra", "@elsikora-react/hooks-extra"),
    Alias("@eslint-react/naming-convention", "@elsikora-react/naming-convention"),
    Alias("@eslint-react/web-api", "@elsikora-react/web-api"),
    Alias("@stylistic", "@elsikora-stylistic"),
    Alias("@typescript-eslint", "@elsikora-typescript"),
    Alias("check-file", "@elsikora-check-file"),
    Alias("jsonc", "elsikora-json"),
    Alias("n", "elsikora-node"),
    Alias("package-json", "@elsikora-package-json"),
    Alias("perfectionist", "@elsikora-perfectionist"),
    Alias("prettier", "@elsikora-prettier"),
    Alias("sonarjs", "@elsikora-sonar"),
    Alias("unicorn", "@elsikora-unicorn")
  ]

  /** The table has fifteen entries and no key twice. */
  lemma PluginMapKeys()
    ensures |PluginMap| == 15
    ensures DistinctSources(PluginMap)
  {
    assert forall i, j | 0 <= i < j < |PluginMap| :: PluginMap[i].from != PluginMap[j].from;
    DistinctSourcesAt(PluginMap);
  }

  /** No two keys are re-exported under the same namespace, so remapping the
      plugins of a fragment with this table never loses one to a collision. */
  lemma PluginMapTargetsDistinct()
    ensures DistinctTargets(PluginMap)
  {
    assert forall i, j | 0 <= i < j < |PluginMap| :: PluginMap[i].to != PluginMap[j].to;
    DistinctTargetsAt(PluginMap);
  }

  /** `@eslint-react` is the leading namespace of exactly the four entries that
      follow it. */
  lemma EslintReactNamespaces()
    ensures forall i | 0 <= i < |PluginMap| :: Matches("@eslint-react", PluginMap[i].from) <==> 1 <= i <= 4
  {
    forall i | 1 <= i <= 4 ensures Matches("@eslint-react", PluginMap[i].from) {
      assert PluginMap[i].from[..14] == "@eslint-react/";
    }
    forall i | 5 <= i < |PluginMap| && i != 9 ensures !Matches("@eslint-react", PluginMap[i].from) {
      if i <= 6 {
        assert PluginMap[i].from[1] != 'e';
      } else {
        assert PluginMap[i].from[0] != '@';
      }
    }
  }

  /** Hence the table is not prefix-free, and the order in which keys are tried
      decides which entry rewrites a rule of a React sub-plugin. */
  lemma PluginMapNotPrefixFree()
    ensures !PrefixFree(PluginMap)
  {
    assert StartsWith(PluginMap[1].from + "/", PluginMap[0].from + "/");
  }

  /** No target is itself a key, so a remapped name is never remapped again. */
  lemma PluginMapTargetsNotKeys()
    ensures forall i, j | 0 <= i < |PluginMap| && 0 <= j < |PluginMap| :: PluginMap[i].to != PluginMap[j].from
  {
  }

  /** Every target lies in one of the two vendor namespaces. */
  lemma PluginMapTargetsVendored()
    ensures forall i | 0 <= i < |PluginMap| :: StartsWith(PluginMap[i].to, "@elsikora-") || StartsWith(PluginMap[i].to, "elsikora-")
  {
    forall i | 0 <= i < |PluginMap| ensures StartsWith(PluginMap[i].to, "@elsikora-") || StartsWith(PluginMap[i].to, "elsikora-") {
      var v := PluginMap[i].to;
      if i == 8 || i == 9 {
        assert v[..9] == "elsikora-";
      } else {
        assert v[..10] == "@elsikora-";
      }
    }
  }
}
