/**
 * Python's ordering of `str` values (lexicographic by code point) and
 * `sorted(set(xs))`, the deduplicate-and-sort step of the tracker.
 */
module StringOrder {

  /** `a < b` on Python strings. */
  predicate Below(a: string, b: string)
  {
    if a == [] then b != []
    else if b == [] then false
    else if a[0] != b[0] then a[0] < b[0]
    else Below(a[1..], b[1..])
  }

  lemma {:induction false} BelowIrreflexive(a: string)
    ensures !Below(a, a)
  {
    if a != [] {
      BelowIrreflexive(a[1..]);
    }
  }

  lemma {:induction false} BelowTransitive(a: string, b: string, c: string)
    requires Below(a, b) && Below(b, c)
    ensures Below(a, c)
  {
    if a != [] && a[0] == b[0] && b[0] == c[0] {
      BelowTransitive(a[1..], b[1..], c[1..]);
    }
  }

  lemma {:induction false} BelowTotal(a: string, b: string)
    requires a != b
    ensures Below(a, b) || Below(b, a)
  {
    if a != [] && b != [] && a[0] == b[0] {
      assert a == [a[0]] + a[1..] && b == [b[0]] + b[1..];
      BelowTotal(a[1..], b[1..]);
    }
  }

  /** Strictly ascending, hence also free of duplicates. */
  predicate StrictlyAscending(s: seq<string>)
  {
    forall i, j :: 0 <= i < j < |s| ==> Below(s[i], s[j])
  }

  /** Put `x` into an ascending sequence unless it is there already. */
  function InsertUnique(x: string, s: seq<string>): seq<string>
  {
    if s == [] then [x]
    else if x == s[0] then s
    else if Below(x, s[0]) then [x] + s
    else [s[0]] + InsertUnique(x, s[1..])
  }

  /** `sorted(set(xs))`. */
  function SortedUnique(xs: seq<string>): seq<string>
  {
    if xs == [] then [] else InsertUnique(xs[|xs| - 1], SortedUnique(xs[..|xs| - 1]))
  }

  lemma {:induction false} InsertUniqueSpec(x: string, s: seq<string>)
    requires StrictlyAscending(s)
    ensures StrictlyAscending(InsertUnique(x, s))
    ensures forall y :: y in InsertUnique(x, s) <==> y == x || y in s
  {
    if s == [] {
    } else if x == s[0] {
    } else if Below(x, s[0]) {
      forall j | 0 < j < |s| + 1
        ensures Below(([x] + s)[0], ([x] + s)[j])
      {
        if j > 1 {
          BelowTransitive(x, s[0], s[j - 1]);
        }
      }
    } else {
      BelowTotal(x, s[0]);
      var t := InsertUnique(x, s[1..]);
      InsertUniqueSpec(x, s[1..]);
      forall j | 0 <= j < |t|
        ensures Below(s[0], t[j])
      {
        assert t[j] in t;
      }
      assert InsertUnique(x, s) == [s[0]] + t;
      assert s == [s[0]] + s[1..];
    }
  }

  /**
   * The tracker's item list: strictly ascending (so sorted and without
   * duplicates) and holding exactly the elements of the inventory.
   */
  lemma {:induction false} SortedUniqueSpec(xs: seq<string>)
    ensures StrictlyAscending(SortedUnique(xs))
    ensures forall y :: y in SortedUnique(xs) <==> y in xs
  {
    if xs != [] {
      var p := xs[..|xs| - 1];
      SortedUniqueSpec(p);
      InsertUniqueSpec(xs[|xs| - 1], SortedUnique(p));
      assert xs == p + [xs[|xs| - 1]];
    }
  }

  /** Strictly ascending sequences have no repeated element. */
  lemma StrictlyAscendingDistinct(s: seq<string>, i: nat, j: nat)
    requires StrictlyAscending(s) && i < j < |s|
    ensures s[i] != s[j]
  {
    BelowIrreflexive(s[i]);
  }

  /** Deduplication example: an inventory `[A, A, B]` is reported as `[A, B]`. */
  lemma DedupExample()
    ensures SortedUnique(["A", "A", "B"]) == ["A", "B"]
  {
    assert Below("A", "B");
    assert SortedUnique(["A"]) == ["A"];
    assert ["A", "A", "B"][..2] == ["A", "A"];
    assert ["A", "A"][..1] == ["A"];
    assert SortedUnique(["A", "A"]) == ["A"];
  }
}
