/** The few JavaScript string operations the model relies on, over `seq<char>`. */
module Text {
  import opened Wrappers

  /** `pat` occurs in `s` starting at index `k`. */
  predicate OccursAt(s: string, pat: string, k: nat) {
    k + |pat| <= |s| && s[k..k + |pat|] == pat
  }

  /** `s.startsWith(p)`. */
  predicate StartsWith(s: string, p: string) {
    p <= s
  }

  /** A common head does not change whether one string starts with another. */
  lemma StartsWithCommonHead(h: string, s: string, p: string)
    ensures StartsWith(h + s, h + p) <==> StartsWith(s, p)
  {
    if StartsWith(h + s, h + p) {
      assert p == (h + p)[|h|..] == (h + s)[|h|..|h| + |p|] == s[..|p|];
    }
    if StartsWith(s, p) {
      assert (h + s)[..|h| + |p|] == h + s[..|p|];
    }
  }

  /** `a` sorts strictly before `b`, and they first differ at index `k`. */
  predicate PrecedesAt(a: string, b: string, k: nat) {
    k < |a| && k < |b| && a[..k] == b[..k] && a[k] < b[k]
  }

  /** `a` sorts strictly before `b` at a position both have. */
  predicate Precedes(a: string, b: string) {
    exists k: nat | k < |a| :: PrecedesAt(a, b, k)
  }

  /** Sorting strictly before is transitive. */
  lemma PrecedesTrans(a: string, b: string, c: string)
    requires Precedes(a, b) && Precedes(b, c)
    ensures Precedes(a, c)
  {
    var k1: nat :| k1 < |a| && PrecedesAt(a, b, k1);
    var k2: nat :| k2 < |b| && PrecedesAt(b, c, k2);
    if k1 < k2 {
      assert c[..k1] == c[..k2][..k1] == b[..k2][..k1] == b[..k1];
      assert c[k1] == b[k1];
      assert PrecedesAt(a, c, k1);
    } else if k2 < k1 {
      assert a[..k2] == a[..k1][..k2] == b[..k1][..k2] == b[..k2];
      assert a[k2] == b[k2];
      assert PrecedesAt(a, c, k2);
    } else {
      assert PrecedesAt(a, c, k1);
    }
  }

  /** Strings that differ at a position both have cannot extend one another, whatever
      is appended to them. */
  lemma PrecedesNoPrefix(a: string, b: string, x: string, y: string)
    requires Precedes(a, b)
    ensures !StartsWith(b + y, a + x) && !StartsWith(a + x, b + y)
  {
    var k: nat :| k < |a| && PrecedesAt(a, b, k);
    assert (a + x)[k] == a[k] && (b + y)[k] == b[k];
  }

  /** Each string sorts strictly before the next. */
  predicate Ascending(xs: seq<string>) {
    forall i | 0 <= i < |xs| - 1 :: Precedes(xs[i], xs[i + 1])
  }

  /** In an ascending sequence every string sorts before every later one. */
  lemma {:induction false} AscendingChain(xs: seq<string>, i: nat, j: nat)
    requires Ascending(xs) && i < j < |xs|
    ensures Precedes(xs[i], xs[j])
    decreases j - i
  {
    if i + 1 < j {
      AscendingChain(xs, i + 1, j);
      PrecedesTrans(xs[i], xs[i + 1], xs[j]);
    }
  }

  /** An ascending sequence repeats no string. */
  lemma AscendingDistinct(xs: seq<string>)
    requires Ascending(xs)
    ensures forall i, j | 0 <= i < j < |xs| :: xs[i] != xs[j]
  {
    forall i, j | 0 <= i < j < |xs| ensures xs[i] != xs[j] {
      AscendingChain(xs, i, j);
      var k: nat :| k < |xs[i]| && PrecedesAt(xs[i], xs[j], k);
    }
  }

  /** `s.endsWith(suffix)`. */
  predicate EndsWith(s: string, suffix: string) {
    |suffix| <= |s| && s[|s| - |suffix|..] == suffix
  }

  /** First occurrence of `pat` in `s` at or after index `k`. */
  function IndexFrom(s: string, pat: string, k: nat): (r: Option<nat>)
    requires k <= |s|
    ensures r.Some? ==> k <= r.value && OccursAt(s, pat, r.value)
    ensures r.Some? ==> forall j | k <= j < r.value :: !OccursAt(s, pat, j)
    ensures r.None? ==> forall j | k <= j <= |s| :: !OccursAt(s, pat, j)
    decreases |s| - k
  {
    if OccursAt(s, pat, k) then Some(k)
    else if k == |s| then None
    else IndexFrom(s, pat, k + 1)
  }

  /** `s.indexOf(pat)`, with `None` for JavaScript's `-1`. */
  function IndexOf(s: string, pat: string): (r: Option<nat>)
    ensures r.Some? ==> OccursAt(s, pat, r.value)
    ensures r.Some? ==> forall j | 0 <= j < r.value :: !OccursAt(s, pat, j)
    ensures r.None? ==> forall j | 0 <= j <= |s| :: !OccursAt(s, pat, j)
  {
    IndexFrom(s, pat, 0)
  }

  /** `s.replace(pat, rep)` with a string pattern: only the first occurrence is
      replaced, and a string without `pat` is returned unchanged. */
  function ReplaceFirst(s: string, pat: string, rep: string): (r: string)
    ensures IndexOf(s, pat).None? ==> r == s
  {
    match IndexOf(s, pat)
    case None => s
    case Some(i) => s[..i] + rep + s[i + |pat|..]
  }

  /** When the pattern is a prefix, replacing its first occurrence swaps the prefix
      and keeps the rest of the string exactly. */
  lemma ReplaceFirstAtPrefix(s: string, pat: string, rep: string)
    requires StartsWith(s, pat)
    ensures ReplaceFirst(s, pat, rep) == rep + s[|pat|..]
  {
    assert OccursAt(s, pat, 0);
  }

  /** `s.split(sep)[0]` for a non-empty separator: everything before the first
      occurrence of `sep`, or the whole string when there is none. */
  function SplitHead(s: string, sep: string): (r: string)
    requires |sep| > 0
    ensures r <= s
    ensures forall j | 0 <= j <= |r| :: !OccursAt(r, sep, j)
    ensures r == s || OccursAt(s, sep, |r|)
  {
    match IndexOf(s, sep)
    case None => s
    case Some(i) =>
      var r := s[..i];
      assert forall j | 0 <= j <= |r| && OccursAt(r, sep, j) :: OccursAt(s, sep, j);
      r
  }

  /** The head before the first occurrence of the separator. */
  lemma SplitHeadAt(s: string, sep: string, k: nat)
    requires |sep| > 0 && OccursAt(s, sep, k)
    requires forall j | 0 <= j < k :: !OccursAt(s, sep, j)
    ensures SplitHead(s, sep) == s[..k]
  {
  }

  /** Without the separator the head is the whole string. */
  lemma SplitHeadNone(s: string, sep: string)
    requires |sep| > 0
    requires forall j | 0 <= j <= |s| :: !OccursAt(s, sep, j)
    ensures SplitHead(s, sep) == s
  {
  }

  /** `xs.join(sep)`. */
  function Join(xs: seq<string>, sep: string): string
  {
    if xs == [] then ""
    else if |xs| == 1 then xs[0]
    else xs[0] + sep + Join(xs[1..], sep)
  }

  /** Joining one more element appends a separator and that element. */
  lemma {:induction false} JoinSnoc(xs: seq<string>, sep: string, x: string)
    requires xs != []
    ensures Join(xs + [x], sep) == Join(xs, sep) + sep + x
  {
    if |xs| == 1 {
      assert xs + [x] == [xs[0], x];
    } else {
      assert (xs + [x])[1..] == xs[1..] + [x];
      JoinSnoc(xs[1..], sep, x);
    }
  }
}
