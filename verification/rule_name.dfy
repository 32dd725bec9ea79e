/** The rule-name remapper: rewrites the leading namespace of a rule id with the
    longest alias-table key that matches it. The table is first sorted by key
    length, longest first, with a stable sort, and the first matching entry of
    the sorted table is used. */
module RuleName {
  import opened Wrappers
  import opened AliasTable

  /** Keys never get longer further down the table. */
  predicate SortedByKeyLength(t: Table) {
    forall i, j | 0 <= i < j < |t| :: |t[i].from| >= |t[j].from|
  }

  /** Inserts `a` before the first entry whose key is not longer than its own, so
      that `a` precedes every entry of equal key length (stability). */
  function Insert(a: Alias, s: Table): Table {
    if s == [] || |a.from| >= |s[0].from| then [a] + s
    else [s[0]] + Insert(a, s[1..])
  }

  /** Insertion adds exactly the one entry. */
  lemma {:induction false} InsertPermutes(a: Alias, s: Table)
    ensures multiset(Insert(a, s)) == multiset(s) + multiset{a}
  {
    if s != [] && |a.from| < |s[0].from| {
      InsertPermutes(a, s[1..]);
      assert s == [s[0]] + s[1..];
    }
  }

  /** Every key of the table is at most `n` characters long. */
  predicate KeysAtMost(t: Table, n: nat) {
    forall k | 0 <= k < |t| :: |t[k].from| <= n
  }

  /** Inserting an entry no longer than a bound keeps every key within it. */
  lemma {:induction false} InsertKeysAtMost(a: Alias, s: Table, n: nat)
    requires KeysAtMost(s, n) && |a.from| <= n
    ensures KeysAtMost(Insert(a, s), n)
  {
    if s != [] && |a.from| < |s[0].from| {
      InsertKeysAtMost(a, s[1..], n);
      assert Insert(a, s) == [s[0]] + Insert(a, s[1..]);
    }
  }

  /** Insertion keeps a table sorted by key length. */
  lemma {:induction false} InsertSorted(a: Alias, s: Table)
    requires SortedByKeyLength(s)
    ensures SortedByKeyLength(Insert(a, s))
  {
    if s != [] && |a.from| < |s[0].from| {
      var rest := Insert(a, s[1..]);
      InsertSorted(a, s[1..]);
      InsertKeysAtMost(a, s[1..], |s[0].from|);
      var r := [s[0]] + rest;
      assert Insert(a, s) == r;
      assert forall i, j | 0 <= i < j < |r| :: |r[i].from| >= |r[j].from| by {
        forall i, j | 0 <= i < j < |r|
          ensures |r[i].from| >= |r[j].from|
        {
          assert r[j] == rest[j - 1];
          if i > 0 {
            assert r[i] == rest[i - 1];
          }
        }
      }
    }
  }

  /** `Object.entries(table).sort((a, b) => b[0].length - a[0].length)`: a stable
      sort by descending key length, as an insertion sort. */
  function SortByKeyLength(t: Table): Table {
    if t == [] then [] else Insert(t[0], SortByKeyLength(t[1..]))
  }

  /** The sort is a permutation of the table. */
  lemma {:induction false} SortByKeyLengthPermutes(t: Table)
    ensures multiset(SortByKeyLength(t)) == multiset(t)
  {
    if t != [] {
      SortByKeyLengthPermutes(t[1..]);
      InsertPermutes(t[0], SortByKeyLength(t[1..]));
      assert t == [t[0]] + t[1..];
    }
  }

  /** The sorted table has keys in non-increasing length. */
  lemma {:induction false} SortByKeyLengthSorted(t: Table)
    ensures SortedByKeyLength(SortByKeyLength(t))
  {
    if t != [] {
      SortByKeyLengthSorted(t[1..]);
      InsertSorted(t[0], SortByKeyLength(t[1..]));
    }
  }

  /** Sorting neither adds nor loses an entry. */
  lemma SortByKeyLengthMembers(t: Table)
    ensures forall a :: a in SortByKeyLength(t) <==> a in t
  {
    var s := SortByKeyLength(t);
    SortByKeyLengthPermutes(t);
    forall a ensures a in s <==> a in t {
      assert a in s <==> a in multiset(s);
      assert a in t <==> a in multiset(t);
    }
  }

  /** The first entry, in table order, whose key matches `name`. */
  function FirstMatch(t: Table, name: string): (r: Option<Alias>)
    ensures r.Some? ==> r.value in t && Matches(r.value.from, name)
    ensures r.None? <==> forall i | 0 <= i < |t| :: !Matches(t[i].from, name)
  {
    if t == [] then None
    else if Matches(t[0].from, name) then Some(t[0])
    else FirstMatch(t[1..], name)
  }

  /** Entry `i` is the first entry of `t` that matches `name`. */
  predicate IsFirstMatch(t: Table, name: string, i: nat) {
    && i < |t|
    && Matches(t[i].from, name)
    && forall j | 0 <= j < i :: !Matches(t[j].from, name)
  }

  /** `FirstMatch` finds exactly the first matching entry. */
  lemma {:induction false} FirstMatchAt(t: Table, name: string, i: nat)
    requires IsFirstMatch(t, name, i)
    ensures FirstMatch(t, name) == Some(t[i])
  {
    if i > 0 {
      assert !Matches(t[0].from, name);
      FirstMatchAt(t[1..], name, i - 1);
    }
  }

  /** Entry `i` is the longest matching key of `t`, and the earliest among matching
      keys of that length. */
  predicate IsLongestMatch(t: Table, name: string, i: nat) {
    && i < |t|
    && Matches(t[i].from, name)
    && (forall j | 0 <= j < |t| && Matches(t[j].from, name) :: |t[j].from| <= |t[i].from|)
    && (forall j | 0 <= j < i && Matches(t[j].from, name) :: |t[j].from| < |t[i].from|)
  }

  /** Keeps the longer of a candidate entry and the best match found after it,
      preferring the candidate on a tie. */
  function Prefer(a: Alias, best: Option<Alias>, name: string): Option<Alias> {
    if Matches(a.from, name) && (best.None? || |a.from| >= |best.value.from|) then Some(a) else best
  }

  /** Reference definition of the entry the remapper should use: the longest
      matching key, the earliest one on a tie. */
  function Longest(t: Table, name: string): (r: Option<Alias>)
    ensures r.None? <==> forall i | 0 <= i < |t| :: !Matches(t[i].from, name)
    ensures r.Some? ==> r.value in t && Matches(r.value.from, name)
    ensures r.Some? ==> forall i | 0 <= i < |t| && Matches(t[i].from, name) :: |t[i].from| <= |r.value.from|
  {
    if t == [] then None
    else
      var rest := Longest(t[1..], name);
      assert forall i | 1 <= i < |t| :: t[i] == t[1..][i - 1];
      Prefer(t[0], rest, name)
  }

  /** The reference definition picks exactly the longest, earliest matching entry. */
  lemma {:induction false} LongestAt(t: Table, name: string, i: nat)
    requires IsLongestMatch(t, name, i)
    ensures Longest(t, name) == Some(t[i])
  {
    if i == 0 {
      var rest := Longest(t[1..], name);
      if rest.Some? {
        assert rest.value in t;
      }
    } else {
      assert forall j | 1 <= j < |t| :: t[j] == t[1..][j - 1];
      assert IsLongestMatch(t[1..], name, i - 1);
      LongestAt(t[1..], name, i - 1);
    }
  }

  /** As soon as any key matches, some entry is the longest, earliest match. */
  lemma LongestMatchExists(t: Table, name: string, j: nat)
    requires j < |t| && Matches(t[j].from, name)
    ensures exists i: nat :: IsLongestMatch(t, name, i)
  {
    var best := Longest(t, name).value;
    var i :| 0 <= i < |t| && t[i] == best;
    var k := 0;
    while !(Matches(t[k].from, name) && |t[k].from| == |best.from|)
      invariant k <= i
      invariant forall j' | 0 <= j' < k :: !(Matches(t[j'].from, name) && |t[j'].from| == |best.from|)
      decreases i - k
    {
      k := k + 1;
    }
    assert IsLongestMatch(t, name, k);
  }

  /** Inserting into a table sorted by key length keeps the first match equal to
      the preferred one of the new entry and the old first match. */
  lemma {:induction false} FirstMatchInsert(a: Alias, s: Table, name: string)
    requires SortedByKeyLength(s)
    ensures FirstMatch(Insert(a, s), name) == Prefer(a, FirstMatch(s, name), name)
  {
    if s == [] || |a.from| >= |s[0].from| {
      var m := FirstMatch(s, name);
      if m.Some? {
        var j :| 0 <= j < |s| && s[j] == m.value;
        assert |s[j].from| <= |s[0].from|;
      }
      assert ([a] + s)[1..] == s;
    } else {
      assert SortedByKeyLength(s[1..]);
      FirstMatchInsert(a, s[1..], name);
      assert Insert(a, s)[1..] == Insert(a, s[1..]);
    }
  }

  /** Sorting longest-first and taking the first match finds the longest matching
      key, and on a tie the one declared first: this is where stability of the
      sort matters. */
  lemma {:induction false} FirstMatchOfSorted(t: Table, name: string)
    ensures FirstMatch(SortByKeyLength(t), name) == Longest(t, name)
  {
    if t != [] {
      FirstMatchOfSorted(t[1..], name);
      SortByKeyLengthSorted(t[1..]);
      FirstMatchInsert(t[0], SortByKeyLength(t[1..]), name);
    }
  }

  /** The rule id produced once an entry (or none) has been chosen. */
  function ApplyMatch(m: Option<Alias>, name: string): string {
    match m
    case None => name
    case Some(a) => Rewrite(a, name)
  }

  /** Rewriting with the first match of the sorted table is rewriting with the
      longest, earliest matching key. */
  lemma SortedRewrite(t: Table, name: string)
    ensures (forall i | 0 <= i < |t| :: !Matches(t[i].from, name)) ==> ApplyMatch(FirstMatch(SortByKeyLength(t), name), name) == name
    ensures forall i: nat | IsLongestMatch(t, name, i) ::
      ApplyMatch(FirstMatch(SortByKeyLength(t), name), name) == t[i].to + "/" + name[|t[i].from| + 1..]
  {
    FirstMatchOfSorted(t, name);
    forall i: nat | IsLongestMatch(t, name, i)
      ensures ApplyMatch(FirstMatch(SortByKeyLength(t), name), name) == t[i].to + "/" + name[|t[i].from| + 1..]
    {
      LongestAt(t, name, i);
      RewriteMatched(t[i], name);
    }
  }

  /** `formatRuleName`: rewrites the leading namespace of `name` with the longest
      matching key of `t`, or returns `name` unchanged when no key matches. */
  function FormatRuleName(t: Table, name: string): (r: string)
    ensures (forall i | 0 <= i < |t| :: !Matches(t[i].from, name)) ==> r == name
    ensures forall i: nat | IsLongestMatch(t, name, i) :: r == t[i].to + "/" + name[|t[i].from| + 1..]
  {
    SortedRewrite(t, name);
    ApplyMatch(FirstMatch(SortByKeyLength(t), name), name)
  }

  /** A rule id without a `/` has no namespace to rewrite and comes back unchanged,
      whatever the table. */
  lemma NoSlashUnchanged(t: Table, name: string)
    requires '/' !in name
    ensures FormatRuleName(t, name) == name
  {
    forall i | 0 <= i < |t| ensures !Matches(t[i].from, name) {
      MatchHasSlash(t[i].from, name);
    }
  }

  /** A rule id some key matches contains a `/`. */
  lemma MatchHasSlash(key: string, name: string)
    ensures Matches(key, name) ==> '/' in name
  {
    if Matches(key, name) {
      MatchesIsLeadingSegment(key, name);
      assert name[|key|] in name;
    }
  }
}
