/**
 * Python's built-in `dict`, as the core uses it: an insertion-ordered table
 * of key/value entries in which every key occurs once. Assigning to an
 * existing key replaces its value in place; assigning to a new key appends
 * an entry. A dict comprehension is the left-to-right fold of assignments
 * over its generator, so a later duplicate key wins.
 */
module Dicts {
  import opened Options

  /** The entries of a dict in iteration order. */
  type Dict<K, V> = seq<(K, V)>

  /** The keys of a dict in iteration order (`list(d)`). */
  function Keys<K, V>(d: Dict<K, V>): (ks: seq<K>)
    ensures |ks| == |d|
  {
    seq(|d|, i requires 0 <= i < |d| => d[i].0)
  }

  predicate Distinct<T(==)>(s: seq<T>)
  {
    forall i, j :: 0 <= i < j < |s| ==> s[i] != s[j]
  }

  /** Every key occurs at most once: the invariant of every Python dict. */
  predicate Valid<K(==), V>(d: Dict<K, V>)
  {
    Distinct(Keys(d))
  }

  /** `d.get(k)`: the value of the entry with key `k`, if any. */
  function Get<K(==), V>(d: Dict<K, V>, k: K): Option<V>
  {
    if d == [] then None
    else if d[0].0 == k then Some(d[0].1)
    else Get(d[1..], k)
  }

  predicate HasKey<K(==), V>(d: Dict<K, V>, k: K)
  {
    Get(d, k).Some?
  }

  /** `d[k] = v`: replace the value in place when `k` is a key, else append. */
  function Set<K(==), V>(d: Dict<K, V>, k: K, v: V): Dict<K, V>
  {
    if d == [] then [(k, v)]
    else if d[0].0 == k then [(k, v)] + d[1..]
    else [d[0]] + Set(d[1..], k, v)
  }

  /** `{k: v for (k, v) in ps}`: assignments applied left to right. */
  function FromSeq<K(==), V>(ps: seq<(K, V)>): Dict<K, V>
  {
    if ps == [] then []
    else Set(FromSeq(ps[..|ps| - 1]), ps[|ps| - 1].0, ps[|ps| - 1].1)
  }

  /** The elements of `s` in order of first occurrence (the key order of a dict built from `s`). */
  function Dedup<T(==)>(s: seq<T>): seq<T>
  {
    if s == [] then []
    else
      var p := Dedup(s[..|s| - 1]);
      if s[|s| - 1] in p then p else p + [s[|s| - 1]]
  }

  // ---------------------------------------------------------------------
  // Lookup and assignment

  lemma {:induction false} HasKeyIffKey<K, V>(d: Dict<K, V>, k: K)
    ensures HasKey(d, k) <==> k in Keys(d)
  {
    if d != [] {
      HasKeyIffKey(d[1..], k);
      assert Keys(d) == [d[0].0] + Keys(d[1..]);
    }
  }

  /** What `d.get` sees after `d[k] = v`: `v` at `k`, the old value elsewhere. */
  lemma {:induction false} GetSet<K, V>(d: Dict<K, V>, k: K, v: V, k': K)
    ensures Get(Set(d, k, v), k') == if k' == k then Some(v) else Get(d, k')
  {
    if d != [] && d[0].0 != k {
      GetSet(d[1..], k, v, k');
      assert Set(d, k, v)[1..] == Set(d[1..], k, v);
    }
  }

  /** Assignment keeps the key order and appends a key that is new. */
  lemma {:induction false} KeysSet<K, V>(d: Dict<K, V>, k: K, v: V)
    ensures Keys(Set(d, k, v)) == if k in Keys(d) then Keys(d) else Keys(d) + [k]
  {
    if d == [] {
    } else if d[0].0 == k {
      var rest := Keys(d[1..]);
      assert Keys(d) == [k] + rest;
      assert Keys(Set(d, k, v)) == [k] + rest;
    } else {
      var s := Set(d[1..], k, v);
      KeysSet(d[1..], k, v);
      assert Set(d, k, v) == [d[0]] + s;
      assert Keys(d) == [d[0].0] + Keys(d[1..]);
      assert Keys([d[0]] + s) == [d[0].0] + Keys(s);
      assert k in Keys(d) <==> k in Keys(d[1..]);
    }
  }

  lemma DistinctAppend<T>(s: seq<T>, x: T)
    requires Distinct(s) && x !in s
    ensures Distinct(s + [x])
  {
  }

  /** Assignment keeps a dict valid. */
  lemma ValidSet<K, V>(d: Dict<K, V>, k: K, v: V)
    requires Valid(d)
    ensures Valid(Set(d, k, v))
  {
    KeysSet(d, k, v);
    if k !in Keys(d) {
      DistinctAppend(Keys(d), k);
    }
  }

  /** A value found by `d.get` is the value of one of the entries. */
  lemma {:induction false} GetEntry<K, V>(d: Dict<K, V>, k: K)
    requires HasKey(d, k)
    ensures (k, Get(d, k).value) in d
  {
    if d[0].0 != k {
      GetEntry(d[1..], k);
    }
  }

  /** In a valid dict, every entry is what `d.get` returns for its key. */
  lemma {:induction false} GetAt<K, V>(d: Dict<K, V>, i: nat)
    requires Valid(d) && i < |d|
    ensures Get(d, d[i].0) == Some(d[i].1)
  {
    if i > 0 {
      assert d[0].0 == Keys(d)[0] != Keys(d)[i] == d[i].0;
      assert Keys(d[1..]) == Keys(d)[1..];
      GetAt(d[1..], i - 1);
    }
  }

  /** Looking a key up in a dict with one more entry at the end. */
  lemma {:induction false} GetAppend<K, V>(d: Dict<K, V>, e: (K, V), k: K)
    ensures Get(d + [e], k) == if HasKey(d, k) then Get(d, k) else if e.0 == k then Some(e.1) else None
  {
    if d != [] {
      assert (d + [e])[1..] == d[1..] + [e];
      GetAppend(d[1..], e, k);
    }
  }

  /** Dropping the last entry keeps a dict valid, and that entry's key is not among the rest. */
  lemma ValidPrefix<K, V>(d: Dict<K, V>)
    requires Valid(d) && d != []
    ensures Valid(d[..|d| - 1])
    ensures !HasKey(d[..|d| - 1], d[|d| - 1].0)
  {
    var n := |d| - 1;
    assert Keys(d[..n]) == Keys(d)[..n];
    HasKeyIffKey(d[..n], d[n].0);
    assert forall i :: 0 <= i < n ==> Keys(d[..n])[i] == Keys(d)[i] != Keys(d)[n] == d[n].0;
  }

  // ---------------------------------------------------------------------
  // Dict comprehensions

  lemma {:induction false} DedupSpec<T>(s: seq<T>)
    ensures Distinct(Dedup(s))
    ensures forall x :: x in Dedup(s) <==> x in s
  {
    if s != [] {
      var p := s[..|s| - 1];
      DedupSpec(p);
      assert s == p + [s[|s| - 1]];
      if s[|s| - 1] !in Dedup(p) {
        DistinctAppend(Dedup(p), s[|s| - 1]);
      }
    }
  }

  /** A sequence without repetitions is its own first-occurrence order. */
  lemma {:induction false} DedupDistinct<T>(s: seq<T>)
    requires Distinct(s)
    ensures Dedup(s) == s
  {
    if s != [] {
      var p := s[..|s| - 1];
      DedupDistinct(p);
      DedupSpec(p);
      assert s[|s| - 1] !in p;
      assert s == p + [s[|s| - 1]];
    }
  }

  /** A comprehension yields a valid dict whose keys are the generated keys in order of first occurrence. */
  lemma {:induction false} FromSeqKeys<K, V>(ps: seq<(K, V)>)
    ensures Keys(FromSeq(ps)) == Dedup(Keys(ps))
    ensures Valid(FromSeq(ps))
  {
    if ps == [] {
    } else {
      var p := ps[..|ps| - 1];
      FromSeqKeys(p);
      KeysSet(FromSeq(p), ps[|ps| - 1].0, ps[|ps| - 1].1);
      assert Keys(ps)[..|ps| - 1] == Keys(p);
      DedupSpec(Keys(p));
      ValidSet(FromSeq(p), ps[|ps| - 1].0, ps[|ps| - 1].1);
    }
  }

  /**
   * In a comprehension the LAST pair generated for a key wins: a key is
   * absent exactly when no pair has it, and a present key maps to the value
   * of a pair with that key that no later pair overrides.
   */
  lemma {:induction false} FromSeqGet<K, V>(ps: seq<(K, V)>, k: K)
    ensures Get(FromSeq(ps), k).None? <==> forall i :: 0 <= i < |ps| ==> ps[i].0 != k
    ensures Get(FromSeq(ps), k).Some? ==>
      exists i :: 0 <= i < |ps| && ps[i] == (k, Get(FromSeq(ps), k).value) &&
        forall j :: i < j < |ps| ==> ps[j].0 != k
  {
    if ps != [] {
      var n := |ps| - 1;
      var p := ps[..n];
      FromSeqGet(p, k);
      GetSet(FromSeq(p), ps[n].0, ps[n].1, k);
      if ps[n].0 == k {
        assert ps[n] == (k, Get(FromSeq(ps), k).value);
      } else if Get(FromSeq(p), k).Some? {
        var i :| 0 <= i < |p| && p[i] == (k, Get(FromSeq(p), k).value) &&
          forall j :: i < j < |p| ==> p[j].0 != k;
        assert ps[i] == p[i];
      } else {
        assert forall i :: 0 <= i < n ==> ps[i] == p[i];
      }
    }
  }
}
