/** Generic sequence helpers: duplicate-free sequences and JavaScript `Set` insertion order. */
module Seqs {

  /** No element occurs twice. */
  predicate NoDuplicates<T(==)>(xs: seq<T>) {
    forall i, j | 0 <= i < j < |xs| :: xs[i] != xs[j]
  }

  /** A sequence with a new head is duplicate-free exactly when its tail is and
      does not contain the head. */
  lemma NoDuplicatesCons<T>(x: T, xs: seq<T>)
    ensures NoDuplicates([x] + xs) <==> x !in xs && NoDuplicates(xs)
  {
    if x in xs {
      var j :| 0 <= j < |xs| && xs[j] == x;
      assert ([x] + xs)[0] == ([x] + xs)[j + 1];
    }
    if NoDuplicates([x] + xs) {
      assert forall i, j | 0 <= i < j < |xs| :: xs[i] == ([x] + xs)[i + 1] && xs[j] == ([x] + xs)[j + 1];
    }
  }

  /** Concatenation is associative. */
  lemma AppendAssoc<T>(a: seq<T>, b: seq<T>, c: seq<T>)
    ensures a + b + c == a + (b + c)
  {
  }

  /** `set.add(x)` on a JavaScript `Set` viewed as its insertion-ordered contents:
      an element already present keeps its place, a new one goes to the end. */
  function AddUnique<T(==,!new)>(acc: seq<T>, x: T): (r: seq<T>)
    ensures forall y :: y in r <==> y in acc || y == x
    ensures acc <= r
    ensures NoDuplicates(acc) ==> NoDuplicates(r)
    ensures x in acc ==> r == acc
  {
    if x in acc then acc else acc + [x]
  }

  /** Adds every element of `xs`, in order, to the insertion-ordered set `acc`. */
  function AddAll<T(==,!new)>(acc: seq<T>, xs: seq<T>): (r: seq<T>)
    ensures forall y :: y in r <==> y in acc || y in xs
    ensures acc <= r
    ensures NoDuplicates(acc) ==> NoDuplicates(r)
    decreases |xs|
  {
    if xs == [] then acc else AddAll(AddUnique(acc, xs[0]), xs[1..])
  }

  /** `[...new Set(xs)]`: the distinct elements of `xs` in order of first occurrence. */
  function Unique<T(==,!new)>(xs: seq<T>): (r: seq<T>)
    ensures NoDuplicates(r)
    ensures forall y :: y in r <==> y in xs
  {
    AddAll([], xs)
  }

  /** Adding more elements never reorders what is already in the set: the distinct
      elements of a prefix of `xs` are a prefix of the distinct elements of `xs`. */
  lemma {:induction false} AddAllPrefix<T(!new)>(acc: seq<T>, xs: seq<T>, k: nat)
    requires k <= |xs|
    ensures AddAll(acc, xs[..k]) <= AddAll(acc, xs)
    decreases |xs|
  {
    if k == 0 {
      assert xs[..0] == [];
    } else {
      assert xs[..k][0] == xs[0];
      assert xs[..k][1..] == xs[1..][..k - 1];
      AddAllPrefix(AddUnique(acc, xs[0]), xs[1..], k - 1);
    }
  }

  /** Adding the elements of a duplicate-free sequence to a set that
      holds none of them appends them all, in order. */
  lemma {:induction false} AddAllDistinct<T(!new)>(acc: seq<T>, xs: seq<T>)
    requires NoDuplicates(acc + xs)
    ensures AddAll(acc, xs) == acc + xs
    decreases |xs|
  {
    if xs != [] {
      forall i | 0 <= i < |acc| ensures acc[i] != xs[0] {
        assert (acc + xs)[i] == acc[i] && (acc + xs)[|acc|] == xs[0];
      }
      assert acc + xs == (acc + [xs[0]]) + xs[1..];
      AddAllDistinct(acc + [xs[0]], xs[1..]);
    }
  }

  /** Adding two runs one after the other is adding their concatenation. */
  lemma {:induction false} AddAllAppend<T(!new)>(acc: seq<T>, a: seq<T>, b: seq<T>)
    ensures AddAll(AddAll(acc, a), b) == AddAll(acc, a + b)
    decreases |a|
  {
    if a == [] {
      assert a + b == b;
    } else {
      assert (a + b)[0] == a[0] && (a + b)[1..] == a[1..] + b;
      AddAllAppend(AddUnique(acc, a[0]), a[1..], b);
    }
  }

  /** The elements of `s` not in `xs`, in order. */
  function Drop<T(==,!new)>(s: seq<T>, xs: seq<T>): (r: seq<T>)
    ensures forall y :: y in r <==> y in s && y !in xs
  {
    if s == [] then []
    else (if s[0] in xs then [] else [s[0]]) + Drop(s[1..], xs)
  }

  /** Deleting from a concatenation deletes from each part. */
  lemma {:induction false} DropAppend<T(!new)>(s: seq<T>, t: seq<T>, xs: seq<T>)
    ensures Drop(s + t, xs) == Drop(s, xs) + Drop(t, xs)
  {
    if s == [] {
      assert s + t == t;
    } else {
      assert (s + t)[0] == s[0] && (s + t)[1..] == s[1..] + t;
      DropAppend(s[1..], t, xs);
    }
  }

  /** Deleting in two rounds is deleting both lists at once. */
  lemma {:induction false} DropDrop<T(!new)>(s: seq<T>, a: seq<T>, b: seq<T>)
    ensures Drop(Drop(s, a), b) == Drop(s, a + b)
  {
    if s != [] {
      DropDrop(s[1..], a, b);
      var head := if s[0] in a then [] else [s[0]];
      assert Drop(s, a) == head + Drop(s[1..], a);
      DropAppend(head, Drop(s[1..], a), b);
      if s[0] !in a {
        assert Drop(head, b) == (if s[0] in b then [] else [s[0]]) + Drop([], b);
      }
    }
  }

  /** Deleting nothing changes nothing. */
  lemma {:induction false} DropNothing<T(!new)>(s: seq<T>)
    ensures Drop(s, []) == s
  {
    if s != [] {
      DropNothing(s[1..]);
    }
  }

  /** Deleting an element that does not occur changes nothing. */
  lemma {:induction false} DropAbsent<T(!new)>(s: seq<T>, a: seq<T>, x: T)
    requires x !in s
    ensures Drop(s, a + [x]) == Drop(s, a)
  {
    if s != [] {
      DropAbsent(s[1..], a, x);
    }
  }

  /** Adding a duplicate-free run appends, in order, the elements not yet
      present. */
  lemma {:induction false} AddAllDrop<T(!new)>(acc: seq<T>, xs: seq<T>)
    requires NoDuplicates(xs)
    ensures AddAll(acc, xs) == acc + Drop(xs, acc)
    decreases |xs|
  {
    if xs != [] {
      var x, rest := xs[0], xs[1..];
      assert xs == [x] + rest;
      NoDuplicatesCons(x, rest);
      assert AddAll(acc, xs) == AddAll(AddUnique(acc, x), rest);
      assert Drop(xs, acc) == (if x in acc then [] else [x]) + Drop(rest, acc);
      AddAllDrop(AddUnique(acc, x), rest);
      if x !in acc {
        DropAbsent(rest, acc, x);
        AppendAssoc(acc, [x], Drop(rest, acc));
      }
    }
  }

  /** Concatenation of a sequence of sequences. */
  function Flatten<T(!new)>(xss: seq<seq<T>>): (r: seq<T>)
    ensures |r| == SumLengths(xss)
    ensures forall x :: x in r <==> exists i | 0 <= i < |xss| :: x in xss[i]
  {
    if xss == [] then [] else xss[0] + Flatten(xss[1..])
  }

  /** Total length of a sequence of sequences. */
  function SumLengths<T>(xss: seq<seq<T>>): nat {
    if xss == [] then 0 else |xss[0]| + SumLengths(xss[1..])
  }

  /** Flattening distributes over concatenation of the outer sequence. */
  lemma {:induction false} FlattenAppend<T(!new)>(a: seq<seq<T>>, b: seq<seq<T>>)
    ensures Flatten(a + b) == Flatten(a) + Flatten(b)
  {
    if a == [] {
      assert a + b == b;
    } else {
      assert (a + b)[1..] == a[1..] + b;
      FlattenAppend(a[1..], b);
    }
  }

  /** Each part sits whole in the flattened sequence, right after the parts
      before it. */
  lemma FlattenSlice<T(!new)>(xss: seq<seq<T>>, j: nat)
    requires j < |xss|
    ensures var at := SumLengths(xss[..j]);
      at + |xss[j]| <= |Flatten(xss)| && Flatten(xss)[at..at + |xss[j]|] == xss[j]
  {
    var before, after := xss[..j], xss[j + 1..];
    assert xss == before + ([xss[j]] + after);
    FlattenAppend(before, [xss[j]] + after);
    FlattenAppend([xss[j]], after);
    assert Flatten([xss[j]]) == xss[j] + [];
  }
}
