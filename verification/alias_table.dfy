/** Alias tables: the maps from a third-party plugin namespace to the vendor
    namespace it is re-exported under, and what it means for a rule id to fall
    under one of their keys. */
module AliasTable {
  import Text
  import Seqs

  /** One table entry: rules and plugins registered under `from` are re-exported
      under `to`. */
  datatype Alias = Alias(from: string, to: string)

  /** An alias table in declaration order (the order of `Object.entries`). */
  type Table = seq<Alias>

  /** `Object.keys(table)`. */
  function Sources(t: Table): (ks: seq<string>)
    ensures |ks| == |t|
    ensures forall i | 0 <= i < |t| :: ks[i] == t[i].from
  {
    if t == [] then [] else [t[0].from] + Sources(t[1..])
  }

  /** `Object.values(table)`. */
  function Targets(t: Table): (vs: seq<string>)
    ensures |vs| == |t|
    ensures forall i | 0 <= i < |t| :: vs[i] == t[i].to
  {
    if t == [] then [] else [t[0].to] + Targets(t[1..])
  }

  /** No two entries share a key (true of every JavaScript object literal). */
  predicate DistinctSources(t: Table) {
    Seqs.NoDuplicates(Sources(t))
  }

  /** No two entries re-export under the same namespace. */
  predicate DistinctTargets(t: Table) {
    Seqs.NoDuplicates(Targets(t))
  }

  /** Distinct keys, stated on the entries themselves. */
  lemma DistinctSourcesAt(t: Table)
    ensures DistinctSources(t) <==> forall i, j | 0 <= i < j < |t| :: t[i].from != t[j].from
  {
  }

  /** Distinct targets, stated on the entries themselves. */
  lemma DistinctTargetsAt(t: Table)
    ensures DistinctTargets(t) <==> forall i, j | 0 <= i < j < |t| :: t[i].to != t[j].to
  {
  }

  /** A rule id falls under namespace `key`: it starts with the whole key
      followed by `/`. */
  predicate Matches(key: string, name: string) {
    Text.StartsWith(name, key + "/")
  }

  /** `name.replace(from + "/", to + "/")`: the rewrite applied once an entry matches. */
  function Rewrite(a: Alias, name: string): string {
    Text.ReplaceFirst(name, a.from + "/", a.to + "/")
  }

  /** A matching entry swaps the leading namespace and keeps the rest of the rule
      id exactly as it was, including later segments that look like keys. */
  lemma RewriteMatched(a: Alias, name: string)
    requires Matches(a.from, name)
    ensures Rewrite(a, name) == a.to + "/" + name[|a.from| + 1..]
  {
    Text.ReplaceFirstAtPrefix(name, a.from + "/", a.to + "/");
  }

  /** A key matches only as a whole leading segment: the characters before the
      first `/` of the id are exactly the key. */
  lemma MatchesIsLeadingSegment(key: string, name: string)
    requires Matches(key, name)
    ensures |key| < |name| && name[..|key|] == key && name[|key|] == '/'
  {
    assert (key + "/")[|key|] == '/';
  }

  /** No key followed by `/` is a prefix of another key followed by `/`, so at most
      one entry can match any rule id. */
  predicate PrefixFree(t: Table) {
    forall i, j | 0 <= i < |t| && 0 <= j < |t| && i != j :: !Text.StartsWith(t[j].from + "/", t[i].from + "/")
  }

  /** Two prefixes of the same string are prefixes of one another. */
  lemma PrefixesComparable(p: string, q: string, s: string)
    requires Text.StartsWith(s, p) && Text.StartsWith(s, q)
    ensures Text.StartsWith(q, p) || Text.StartsWith(p, q)
  {
    if |p| <= |q| {
      assert q[..|p|] == s[..|p|] == p;
    } else {
      assert p[..|q|] == s[..|q|] == q;
    }
  }

  /** One key followed by `/` begins another key followed by `/` only when the
      keys are equal or the first is a whole leading segment of the second. */
  lemma NamespacePrefix(a: string, b: string)
    ensures Text.StartsWith(b + "/", a + "/") ==> a == b || (|a| < |b| && b[|a|] == '/')
  {
    if Text.StartsWith(b + "/", a + "/") && |a| < |b| {
      assert (b + "/")[|a|] == (a + "/")[|a|];
    }
    if Text.StartsWith(b + "/", a + "/") && |a| == |b| {
      assert a == (a + "/")[..|a|] == (b + "/")[..|b|] == b;
    }
  }

  /** The keys are in strictly increasing order. */
  predicate SortedKeys(t: Table) {
    forall i | 0 <= i < |t| - 1 :: Text.Precedes(t[i].from, t[i + 1].from)
  }

  /** In a table with strictly increasing keys, every key sorts before every later one. */
  lemma {:induction false} SortedKeysChain(t: Table, i: nat, j: nat)
    requires SortedKeys(t) && i < j < |t|
    ensures Text.Precedes(t[i].from, t[j].from)
    decreases j - i
  {
    if i + 1 < j {
      SortedKeysChain(t, i + 1, j);
      Text.PrecedesTrans(t[i].from, t[i + 1].from, t[j].from);
    }
  }

  /** Strictly increasing keys are distinct and no one of them is a namespace
      prefix of another. */
  lemma SortedKeysPrefixFree(t: Table)
    requires SortedKeys(t)
    ensures PrefixFree(t) && DistinctSources(t)
  {
    forall i, j | 0 <= i < |t| && 0 <= j < |t| && i != j
      ensures !Text.StartsWith(t[j].from + "/", t[i].from + "/") && t[i].from != t[j].from
    {
      if i < j {
        SortedKeysChain(t, i, j);
        Text.PrecedesNoPrefix(t[i].from, t[j].from, "/", "/");
      } else {
        SortedKeysChain(t, j, i);
        Text.PrecedesNoPrefix(t[j].from, t[i].from, "/", "/");
      }
    }
    DistinctSourcesAt(t);
  }

  /** In a prefix-free table two different entries never both match. */
  lemma PrefixFreeUniqueMatch(t: Table, name: string, i: nat, j: nat)
    requires PrefixFree(t)
    requires i < |t| && j < |t|
    requires Matches(t[i].from, name) && Matches(t[j].from, name)
    ensures i == j
  {
    PrefixesComparable(t[i].from + "/", t[j].from + "/", name);
  }
}
