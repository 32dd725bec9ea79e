/** Ordered association lists: the model of a JavaScript object's own properties.
    Key order is insertion order, which decides both iteration order
    (`Object.keys`, `Object.entries`) and which of two writes to the same key
    survives. The operations are plain recursive definitions; what they mean is
    stated by the lemmas that follow each of them. */
module Dicts {
  import opened Wrappers
  import Seqs

  /** One own property. */
  datatype Entry<V> = Entry(key: string, value: V)

  /** An object, as the ordered list of its own properties. */
  type Dict<V> = seq<Entry<V>>

  /** `Object.keys(d)`. */
  function Keys<V>(d: Dict<V>): (ks: seq<string>)
    ensures |ks| == |d|
    ensures forall i | 0 <= i < |d| :: ks[i] == d[i].key
  {
    if d == [] then [] else [d[0].key] + Keys(d[1..])
  }

  /** Every key occurs once, as in any JavaScript object. */
  predicate WellFormed<V>(d: Dict<V>) {
    Seqs.NoDuplicates(Keys(d))
  }

  /** Well-formedness, stated on the entries themselves. */
  lemma WellFormedAt<V>(d: Dict<V>)
    ensures WellFormed(d) <==> forall i, j | 0 <= i < j < |d| :: d[i].key != d[j].key
  {
  }

  /** The keys of an object with a new first property. */
  lemma KeysCons<V>(e: Entry<V>, d: Dict<V>)
    ensures Keys([e] + d) == [e.key] + Keys(d)
  {
  }

  /** The keys of an object with a new last property. */
  lemma KeysSnoc<V>(d: Dict<V>, e: Entry<V>)
    ensures Keys(d + [e]) == Keys(d) + [e.key]
  {
  }

  /** The rest of a well-formed object is well-formed and does not repeat its
      first key. */
  lemma WellFormedTail<V>(d: Dict<V>)
    requires WellFormed(d) && d != []
    ensures WellFormed(d[1..]) && d[0].key !in Keys(d[1..])
  {
    assert d == [d[0]] + d[1..];
    KeysCons(d[0], d[1..]);
    Seqs.NoDuplicatesCons(d[0].key, Keys(d[1..]));
  }

  // ----------------------------------------------------------------- reading

  /** The value stored under `k`, `None` when `k` is not a key. A read finds the
      first property with that key. */
  function Lookup<V>(d: Dict<V>, k: string): Option<V>
    decreases |d|
  {
    if d == [] then None
    else if d[0].key == k then Some(d[0].value)
    else Lookup(d[1..], k)
  }

  /** A read finds nothing exactly when the key is absent. */
  lemma {:induction false} LookupNone<V>(d: Dict<V>, k: string)
    ensures Lookup(d, k).None? <==> k !in Keys(d)
    decreases |d|
  {
    if d != [] {
      KeysCons(d[0], d[1..]);
      assert d == [d[0]] + d[1..];
      LookupNone(d[1..], k);
    }
  }

  /** A read finds a value stored under the key, the first one there is. */
  lemma {:induction false} LookupFound<V>(d: Dict<V>, k: string)
    requires Lookup(d, k).Some?
    ensures exists i | 0 <= i < |d| :: d[i] == Entry(k, Lookup(d, k).value)
    decreases |d|
  {
    if d[0].key != k {
      LookupFound(d[1..], k);
      var i :| 0 <= i < |d[1..]| && d[1..][i] == Entry(k, Lookup(d, k).value);
      assert d[i + 1] == d[1..][i];
    }
  }

  /** In a well-formed object the value found under a key is the one stored with it. */
  lemma {:induction false} LookupAt<V>(d: Dict<V>, i: nat)
    requires WellFormed(d)
    requires i < |d|
    ensures Lookup(d, d[i].key) == Some(d[i].value)
    decreases |d|
  {
    if i > 0 {
      WellFormedTail(d);
      assert d[1..][i - 1] == d[i];
      LookupAt(d[1..], i - 1);
    }
  }

  /** Reading an object with a new first property. */
  lemma LookupCons<V>(e: Entry<V>, d: Dict<V>, k: string)
    ensures Lookup([e] + d, k) == if e.key == k then Some(e.value) else Lookup(d, k)
  {
    assert ([e] + d)[1..] == d;
  }

  /** Reading an object with a new last property. */
  lemma {:induction false} LookupSnoc<V>(d: Dict<V>, e: Entry<V>, k: string)
    ensures Lookup(d + [e], k) == if k in Keys(d) then Lookup(d, k) else if k == e.key then Some(e.value) else None
    decreases |d|
  {
    if d == [] {
      assert d + [e] == [e];
    } else {
      assert (d + [e])[1..] == d[1..] + [e];
      KeysCons(d[0], d[1..]);
      assert d == [d[0]] + d[1..];
      LookupSnoc(d[1..], e, k);
    }
  }

  // ----------------------------------------------------------------- writing

  /** `d[k] = v`: an existing key is overwritten where it stands; a new key is
      appended at the end. */
  function Set<V>(d: Dict<V>, k: string, v: V): Dict<V>
    decreases |d|
  {
    if d == [] then [Entry(k, v)]
    else if d[0].key == k then [Entry(k, v)] + d[1..]
    else [d[0]] + Set(d[1..], k, v)
  }

  /** After a write the key holds the new value and every other key reads as before. */
  lemma {:induction false} SetLookup<V>(d: Dict<V>, k: string, v: V, k': string)
    ensures Lookup(Set(d, k, v), k') == if k' == k then Some(v) else Lookup(d, k')
    decreases |d|
  {
    if d != [] && d[0].key != k {
      SetLookup(d[1..], k, v, k');
      LookupCons(d[0], Set(d[1..], k, v), k');
    } else if d != [] {
      LookupCons(Entry(k, v), d[1..], k');
    }
  }

  /** A write keeps the key order and adds the key at the end when it is new. */
  lemma {:induction false} SetKeys<V>(d: Dict<V>, k: string, v: V)
    ensures Keys(Set(d, k, v)) == if k in Keys(d) then Keys(d) else Keys(d) + [k]
    decreases |d|
  {
    if d != [] {
      KeysCons(d[0], d[1..]);
      assert d == [d[0]] + d[1..];
      if d[0].key == k {
        KeysCons(Entry(k, v), d[1..]);
      } else {
        SetKeys(d[1..], k, v);
        KeysCons(d[0], Set(d[1..], k, v));
      }
    }
  }

  /** Writing a new key appends one property. */
  lemma {:induction false} SetNew<V>(d: Dict<V>, k: string, v: V)
    requires k !in Keys(d)
    ensures Set(d, k, v) == d + [Entry(k, v)]
    decreases |d|
  {
    if d != [] {
      KeysCons(d[0], d[1..]);
      assert d == [d[0]] + d[1..];
      SetNew(d[1..], k, v);
    }
  }

  /** Writing keeps an object well-formed. */
  lemma SetWellFormed<V>(d: Dict<V>, k: string, v: V)
    requires WellFormed(d)
    ensures WellFormed(Set(d, k, v))
  {
    SetKeys(d, k, v);
  }

  /** Writing back the value already stored under a key changes nothing. */
  lemma {:induction false} SetSame<V>(d: Dict<V>, k: string, v: V)
    requires Lookup(d, k) == Some(v)
    ensures Set(d, k, v) == d
    decreases |d|
  {
    if d[0].key == k {
      assert d == [d[0]] + d[1..];
    } else {
      SetSame(d[1..], k, v);
      assert d == [d[0]] + d[1..];
    }
  }

  // ---------------------------------------------------------------- deleting

  /** `delete d[k]`: the key and its value go, everything else stays in order. */
  function Delete<V>(d: Dict<V>, k: string): Dict<V>
    decreases |d|
  {
    if d == [] then []
    else if d[0].key == k then Delete(d[1..], k)
    else [d[0]] + Delete(d[1..], k)
  }

  /** After a delete the key is gone and every other key reads as before. */
  lemma {:induction false} DeleteLookup<V>(d: Dict<V>, k: string, k': string)
    ensures Lookup(Delete(d, k), k') == if k' == k then None else Lookup(d, k')
    decreases |d|
  {
    if d != [] {
      DeleteLookup(d[1..], k, k');
      if d[0].key != k {
        LookupCons(d[0], Delete(d[1..], k), k');
      }
    }
  }

  /** A delete removes exactly the deleted key. */
  lemma {:induction false} DeleteKeys<V>(d: Dict<V>, k: string)
    ensures forall k' :: k' in Keys(Delete(d, k)) <==> k' in Keys(d) && k' != k
    decreases |d|
  {
    if d != [] {
      DeleteKeys(d[1..], k);
      KeysCons(d[0], d[1..]);
      assert d == [d[0]] + d[1..];
      if d[0].key != k {
        KeysCons(d[0], Delete(d[1..], k));
      }
    }
  }

  /** Deleting an absent key changes nothing. */
  lemma {:induction false} DeleteAbsent<V>(d: Dict<V>, k: string)
    requires k !in Keys(d)
    ensures Delete(d, k) == d
    decreases |d|
  {
    if d != [] {
      KeysCons(d[0], d[1..]);
      assert d == [d[0]] + d[1..];
      DeleteAbsent(d[1..], k);
    }
  }

  /** Deleting keeps an object well-formed. */
  lemma {:induction false} DeleteWellFormed<V>(d: Dict<V>, k: string)
    requires WellFormed(d)
    ensures WellFormed(Delete(d, k))
    decreases |d|
  {
    if d != [] {
      WellFormedTail(d);
      DeleteWellFormed(d[1..], k);
      if d[0].key != k {
        DeleteKeys(d[1..], k);
        KeysCons(d[0], Delete(d[1..], k));
        Seqs.NoDuplicatesCons(d[0].key, Keys(Delete(d[1..], k)));
      }
    }
  }

  /** Deleting from a concatenation deletes from both parts. */
  lemma {:induction false} DeleteAppend<V>(a: Dict<V>, b: Dict<V>, k: string)
    ensures Delete(a + b, k) == Delete(a, k) + Delete(b, k)
    decreases |a|
  {
    if a == [] {
      assert a + b == b;
    } else {
      assert (a + b)[1..] == a[1..] + b;
      DeleteAppend(a[1..], b, k);
    }
  }

  /** Deleting a key that occurs once removes exactly that entry. */
  lemma DeleteSplit<V>(a: Dict<V>, e: Entry<V>, b: Dict<V>)
    requires e.key !in Keys(a) && e.key !in Keys(b)
    ensures Delete(a + [e] + b, e.key) == a + b
  {
    DeleteAppend(a + [e], b, e.key);
    DeleteAppend(a, [e], e.key);
    DeleteAbsent(a, e.key);
    DeleteAbsent(b, e.key);
    assert Delete([e], e.key) == [] by {
      assert [e][1..] == [];
    }
    assert a + [] == a;
  }

  // ----------------------------------------------------------------- merging

  /** `{...acc, ...b}`: the properties of `b` are written, in order, over `acc`. */
  function Merge<V>(acc: Dict<V>, b: Dict<V>): Dict<V>
    decreases |b|
  {
    if b == [] then acc else Merge(Set(acc, b[0].key, b[0].value), b[1..])
  }

  /** A merge holds the keys of both sides. */
  lemma {:induction false} MergeKeys<V>(acc: Dict<V>, b: Dict<V>)
    ensures forall k :: k in Keys(Merge(acc, b)) <==> k in Keys(acc) || k in Keys(b)
    decreases |b|
  {
    if b != [] {
      SetKeys(acc, b[0].key, b[0].value);
      MergeKeys(Set(acc, b[0].key, b[0].value), b[1..]);
      KeysCons(b[0], b[1..]);
      assert b == [b[0]] + b[1..];
    }
  }

  /** A key the right-hand side lacks keeps its left-hand value. */
  lemma {:induction false} MergeLeft<V>(acc: Dict<V>, b: Dict<V>, k: string)
    requires k !in Keys(b)
    ensures Lookup(Merge(acc, b), k) == Lookup(acc, k)
    decreases |b|
  {
    if b != [] {
      KeysCons(b[0], b[1..]);
      assert b == [b[0]] + b[1..];
      SetLookup(acc, b[0].key, b[0].value, k);
      MergeLeft(Set(acc, b[0].key, b[0].value), b[1..], k);
    }
  }

  /** A property of a well-formed right-hand side wins the merge. */
  lemma {:induction false} MergeRight<V>(acc: Dict<V>, b: Dict<V>, k: string)
    requires WellFormed(b)
    requires k in Keys(b)
    ensures Lookup(Merge(acc, b), k) == Lookup(b, k)
    decreases |b|
  {
    WellFormedTail(b);
    KeysCons(b[0], b[1..]);
    assert b == [b[0]] + b[1..];
    if b[0].key == k {
      SetLookup(acc, b[0].key, b[0].value, k);
      MergeLeft(Set(acc, b[0].key, b[0].value), b[1..], k);
    } else {
      MergeRight(Set(acc, b[0].key, b[0].value), b[1..], k);
    }
  }
}
