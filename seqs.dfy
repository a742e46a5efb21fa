/**
 * Sequence helpers shared by the store and the read-side projections:
 * sums, flattening, key filters, and the stable descending sort that
 * `Array.prototype.sort` performs with a comparator of the form
 * `(a, b) => key(b) - key(a)` (ECMAScript 2019 and later require the sort to be stable).
 */
module Seqs {
  import opened Wrappers

  // ---------------------------------------------------------------------------
  // Sums and flattening
  // ---------------------------------------------------------------------------

  /** The sum of `f` over the elements of `s` (a `reduce` with `+`). */
  function SumBy<T>(s: seq<T>, f: T -> int): int
  {
    if s == [] then 0 else f(s[0]) + SumBy(s[1..], f)
  }

  lemma {:induction false} SumByAppend<T>(a: seq<T>, b: seq<T>, f: T -> int)
    ensures SumBy(a + b, f) == SumBy(a, f) + SumBy(b, f)
  {
    if a == [] {
      assert a + b == b;
    } else {
      assert (a + b)[0] == a[0] && (a + b)[1..] == a[1..] + b;
      SumByAppend(a[1..], b, f);
    }
  }

  /** A sum does not depend on the order of its terms. */
  lemma {:induction false} SumByPermutation<T>(a: seq<T>, b: seq<T>, f: T -> int)
    requires multiset(a) == multiset(b)
    ensures SumBy(a, f) == SumBy(b, f)
  {
    if a != [] {
      assert a[0] in multiset(b);
      var p :| 0 <= p < |b| && b[p] == a[0];
      var rest := b[..p] + b[p + 1..];
      assert b == b[..p] + [b[p]] + b[p + 1..];
      RemoveFirst(a, b, p);
      SumByPermutation(a[1..], rest, f);
      SumByAppend(b[..p] + [b[p]], b[p + 1..], f);
      SumByAppend(b[..p], [b[p]], f);
      SumByAppend(b[..p], b[p + 1..], f);
    }
  }

  /** Removing the first element of `a` and an equal element of `b` keeps two permutations permutations. */
  lemma RemoveFirst<T>(a: seq<T>, b: seq<T>, p: nat)
    requires multiset(a) == multiset(b) && a != [] && p < |b| && b[p] == a[0]
    ensures multiset(a[1..]) == multiset(b[..p] + b[p + 1..])
  {
    assert a == [a[0]] + a[1..];
    assert b == b[..p] + [b[p]] + b[p + 1..];
    assert multiset(b) == multiset(b[..p]) + multiset{b[p]} + multiset(b[p + 1..]);
    assert multiset(b[..p] + b[p + 1..]) == multiset(b[..p]) + multiset(b[p + 1..]);
    assert multiset(a) == multiset(a[1..]) + multiset{a[0]};
    assert multiset(a[1..]) == multiset(a) - multiset{a[0]};
    assert multiset(b[..p] + b[p + 1..]) == multiset(b) - multiset{a[0]};
  }

  lemma MultisetCancel<T>(a: multiset<T>, b: multiset<T>, c: multiset<T>)
    requires a + c == b + c
    ensures a == b
  {
    assert forall x :: a[x] == (a + c)[x] - c[x];
    assert forall x :: b[x] == (b + c)[x] - c[x];
  }

  /** The concatenation of `f(x)` for every `x` of `s`, in order. */
  function FlatMap<T, U>(s: seq<T>, f: T -> seq<U>): seq<U>
  {
    if s == [] then [] else f(s[0]) + FlatMap(s[1..], f)
  }

  lemma {:induction false} FlatMapAppend<T, U>(a: seq<T>, b: seq<T>, f: T -> seq<U>)
    ensures FlatMap(a + b, f) == FlatMap(a, f) + FlatMap(b, f)
  {
    if a == [] {
      assert a + b == b;
    } else {
      assert (a + b)[0] == a[0] && (a + b)[1..] == a[1..] + b;
      FlatMapAppend(a[1..], b, f);
    }
  }

  /** Reordering the outer sequence only reorders the flattened one. */
  lemma {:induction false} FlatMapPermutation<T, U>(a: seq<T>, b: seq<T>, f: T -> seq<U>)
    requires multiset(a) == multiset(b)
    ensures multiset(FlatMap(a, f)) == multiset(FlatMap(b, f))
  {
    if a != [] {
      assert a[0] in multiset(b);
      var p :| 0 <= p < |b| && b[p] == a[0];
      var rest := b[..p] + b[p + 1..];
      assert b == b[..p] + [b[p]] + b[p + 1..];
      RemoveFirst(a, b, p);
      FlatMapPermutation(a[1..], rest, f);
      FlatMapAppend(b[..p] + [b[p]], b[p + 1..], f);
      FlatMapAppend(b[..p], [b[p]], f);
      FlatMapAppend(b[..p], b[p + 1..], f);
      assert FlatMap([b[p]], f) == f(b[p]);
    }
  }

  /**
   * `Array.prototype.find` / `findIndex`: the position of the first element
   * satisfying `p`, or nothing when no element does.
   */
  function FindIndex<T>(s: seq<T>, p: T -> bool): (r: Option<nat>)
    ensures r.Some? ==> r.value < |s| && p(s[r.value]) && forall j :: 0 <= j < r.value ==> !p(s[j])
    ensures r.None? ==> forall j :: 0 <= j < |s| ==> !p(s[j])
  {
    if s == [] then None
    else if p(s[0]) then Some(0)
    else match FindIndex(s[1..], p)
      case None => None
      case Some(i) => Some(i + 1)
  }

  // ---------------------------------------------------------------------------
  // Distinctness
  // ---------------------------------------------------------------------------

  /** No two positions of `s` carry the same `f` value. */
  ghost predicate DistinctBy<T, U>(s: seq<T>, f: T -> U)
  {
    forall i, j :: 0 <= i < j < |s| ==> f(s[i]) != f(s[j])
  }

  /** Distinctness of a projection survives any reordering. */
  lemma {:induction false} DistinctByPermutation<T, U>(a: seq<T>, b: seq<T>, f: T -> U)
    requires multiset(a) == multiset(b)
    requires DistinctBy(a, f)
    ensures DistinctBy(b, f)
  {
    if b != [] {
      assert b[0] in multiset(a);
      var p :| 0 <= p < |a| && a[p] == b[0];
      var rest := a[..p] + a[p + 1..];
      assert a == a[..p] + [a[p]] + a[p + 1..];
      RemoveFirst(b, a, p);
      DistinctByRemove(a, p, f);
      DistinctByPermutation(rest, b[1..], f);
      HeadDistinct(a, b, p, f);
    }
  }

  /** Two distinct sequences with no key in common concatenate to a distinct one. */
  lemma DistinctByAppend<T, U>(a: seq<T>, b: seq<T>, f: T -> U)
    requires DistinctBy(a, f) && DistinctBy(b, f)
    requires forall i, j :: 0 <= i < |a| && 0 <= j < |b| ==> f(a[i]) != f(b[j])
    ensures DistinctBy(a + b, f)
  {
    var s := a + b;
    forall i, j | 0 <= i < j < |s| ensures f(s[i]) != f(s[j]) {
      if j < |a| {
        assert s[i] == a[i] && s[j] == a[j];
      } else if i < |a| {
        assert s[i] == a[i] && s[j] == b[j - |a|];
      } else {
        assert s[i] == b[i - |a|] && s[j] == b[j - |a|];
      }
    }
  }

  lemma DistinctByRemove<T, U>(a: seq<T>, p: nat, f: T -> U)
    requires DistinctBy(a, f) && p < |a|
    ensures DistinctBy(a[..p] + a[p + 1..], f)
  {
    var rest := a[..p] + a[p + 1..];
    forall i, j | 0 <= i < j < |rest|
      ensures f(rest[i]) != f(rest[j])
    {
      var i' := if i < p then i else i + 1;
      var j' := if j < p then j else j + 1;
      assert rest[i] == a[i'] && rest[j] == a[j'] && i' < j';
    }
  }

  lemma HeadDistinct<T, U>(a: seq<T>, b: seq<T>, p: nat, f: T -> U)
    requires DistinctBy(a, f) && b != [] && p < |a| && a[p] == b[0]
    requires multiset(b[1..]) == multiset(a[..p] + a[p + 1..])
    requires DistinctBy(b[1..], f)
    ensures DistinctBy(b, f)
  {
    var rest := a[..p] + a[p + 1..];
    forall i, j | 0 <= i < j < |b|
      ensures f(b[i]) != f(b[j])
    {
      if i == 0 {
        assert b[j] == b[1..][j - 1];
        assert b[j] in multiset(rest);
        var q :| 0 <= q < |rest| && rest[q] == b[j];
        var q' := if q < p then q else q + 1;
        assert a[q'] == b[j] && q' != p;
      } else {
        assert b[i] == b[1..][i - 1] && b[j] == b[1..][j - 1];
      }
    }
  }

  // ---------------------------------------------------------------------------
  // Stable descending sort by an integer key
  // ---------------------------------------------------------------------------

  /** Non-increasing in `key`. */
  ghost predicate SortedDesc<T>(s: seq<T>, key: T -> int)
  {
    forall i, j :: 0 <= i < j < |s| ==> key(s[i]) >= key(s[j])
  }

  /** The elements of `s` whose key is `k`, in their order in `s`. */
  function WithKey<T>(s: seq<T>, key: T -> int, k: int): seq<T>
  {
    if s == [] then []
    else if key(s[0]) == k then [s[0]] + WithKey(s[1..], key, k)
    else WithKey(s[1..], key, k)
  }

  /**
   * Stability stated for a whole sequence: for every key, the elements that
   * carry it appear in the same order in `r` as in `s`.
   */
  ghost predicate StableFor<T>(r: seq<T>, s: seq<T>, key: T -> int)
  {
    forall k :: WithKey(r, key, k) == WithKey(s, key, k)
  }

  /** Inserts `x` before the first element whose key is not larger than its own. */
  function Insert<T>(x: T, s: seq<T>, key: T -> int): seq<T>
  {
    if s == [] || key(s[0]) <= key(x) then [x] + s
    else [s[0]] + Insert(x, s[1..], key)
  }

  lemma {:induction false} InsertMultiset<T>(x: T, s: seq<T>, key: T -> int)
    ensures multiset(Insert(x, s, key)) == multiset(s) + multiset{x}
    ensures |Insert(x, s, key)| == |s| + 1
  {
    if s != [] && key(s[0]) > key(x) {
      InsertMultiset(x, s[1..], key);
      assert s == [s[0]] + s[1..];
    }
  }

  lemma {:induction false} InsertSorted<T>(x: T, s: seq<T>, key: T -> int)
    requires SortedDesc(s, key)
    ensures SortedDesc(Insert(x, s, key), key)
  {
    var r := Insert(x, s, key);
    if s == [] || key(s[0]) <= key(x) {
      assert r[1..] == s;
    } else {
      var t := Insert(x, s[1..], key);
      InsertSorted(x, s[1..], key);
      InsertMultiset(x, s[1..], key);
      assert r == [s[0]] + t;
      forall j | 0 <= j < |t| ensures key(s[0]) >= key(t[j]) {
        assert t[j] in multiset(t);
        assert t[j] == x || t[j] in multiset(s[1..]);
      }
      ConsSorted(s[0], t, key);
    }
  }

  /** A head whose key is at least every key of a sorted tail keeps the sequence sorted. */
  lemma ConsSorted<T>(h: T, t: seq<T>, key: T -> int)
    requires SortedDesc(t, key)
    requires forall j :: 0 <= j < |t| ==> key(h) >= key(t[j])
    ensures SortedDesc([h] + t, key)
  {
    var r := [h] + t;
    forall i, j | 0 <= i < j < |r| ensures key(r[i]) >= key(r[j]) {
      assert r[j] == t[j - 1];
      if i > 0 {
        assert r[i] == t[i - 1];
      }
    }
  }

  lemma {:induction false} InsertWithKey<T>(x: T, s: seq<T>, key: T -> int, k: int)
    ensures WithKey(Insert(x, s, key), key, k) == if key(x) == k then [x] + WithKey(s, key, k) else WithKey(s, key, k)
  {
    var r := Insert(x, s, key);
    if s == [] || key(s[0]) <= key(x) {
      assert r[0] == x && r[1..] == s;
    } else {
      InsertWithKey(x, s[1..], key, k);
      assert r[0] == s[0] && r[1..] == Insert(x, s[1..], key);
    }
  }

  lemma HeadKeyPresent<T>(a: seq<T>, key: T -> int)
    ensures a != [] ==> WithKey(a, key, key(a[0])) != []
  {
  }

  lemma WithKeyTail<T>(a: seq<T>, key: T -> int, k: int)
    requires a != []
    ensures WithKey(a[1..], key, k) == if key(a[0]) == k then WithKey(a, key, k)[1..] else WithKey(a, key, k)
  {
  }

  /** The first element of a non-empty key filter carries that key and comes from the input. */
  lemma {:induction false} WithKeyMember<T>(s: seq<T>, key: T -> int, k: int)
    requires WithKey(s, key, k) != []
    ensures exists i :: 0 <= i < |s| && s[i] == WithKey(s, key, k)[0] && key(s[i]) == k
  {
    if key(s[0]) != k {
      WithKeyMember(s[1..], key, k);
      var i :| 0 <= i < |s[1..]| && s[1..][i] == WithKey(s[1..], key, k)[0] && key(s[1..][i]) == k;
      assert s[i + 1] == s[1..][i];
    }
  }

  /**
   * A stable sort in non-increasing key order: what `[...s].sort((a, b) => key(b) - key(a))`
   * returns. The result is sorted, a permutation of `s`, and keeps equal keys in input order.
   */
  function SortDesc<T>(s: seq<T>, key: T -> int): (r: seq<T>)
    ensures |r| == |s|
    ensures SortedDesc(r, key)
    ensures multiset(r) == multiset(s)
    ensures StableFor(r, s, key)
  {
    if s == [] then []
    else
      var rest := SortDesc(s[1..], key);
      InsertMultiset(s[0], rest, key);
      InsertSorted(s[0], rest, key);
      assert s == [s[0]] + s[1..];
      assert forall k :: WithKey(Insert(s[0], rest, key), key, k) == WithKey(s, key, k) by {
        forall k ensures WithKey(Insert(s[0], rest, key), key, k) == WithKey(s, key, k) {
          InsertWithKey(s[0], rest, key, k);
        }
      }
      Insert(s[0], rest, key)
  }

  /** Sorting a sorted sequence changes nothing, so sorting twice is sorting once. */
  lemma {:induction false} SortDescOfSorted<T>(s: seq<T>, key: T -> int)
    requires SortedDesc(s, key)
    ensures SortDesc(s, key) == s
  {
    if s != [] {
      SortDescOfSorted(s[1..], key);
      assert s == [s[0]] + s[1..];
    }
  }

  lemma SortDescIdempotent<T>(s: seq<T>, key: T -> int)
    ensures SortDesc(SortDesc(s, key), key) == SortDesc(s, key)
  {
    SortDescOfSorted(SortDesc(s, key), key);
  }

  /**
   * The contract of `SortDesc` determines its result: any sorted sequence that
   * is stable with respect to `s` is `SortDesc(s)`.
   */
  lemma {:induction false} SortDescUnique<T>(s: seq<T>, t: seq<T>, key: T -> int)
    requires SortedDesc(t, key)
    requires StableFor(t, s, key)
    ensures t == SortDesc(s, key)
  {
    SortedStableEqual(t, SortDesc(s, key), key);
  }

  lemma {:induction false} SortedStableEqual<T>(a: seq<T>, b: seq<T>, key: T -> int)
    requires SortedDesc(a, key) && SortedDesc(b, key)
    requires forall k :: WithKey(a, key, k) == WithKey(b, key, k)
    ensures a == b
    decreases |a| + |b|
  {
    if a == [] || b == [] {
      if a != [] || b != [] {
        HeadKeyPresent(a, key);
        HeadKeyPresent(b, key);
        assert false;
      }
    } else {
      var ka, kb := key(a[0]), key(b[0]);
      assert WithKey(a, key, ka) != [];
      WithKeyMember(b, key, ka);
      assert WithKey(b, key, kb) != [];
      WithKeyMember(a, key, kb);
      assert ka == kb;
      assert a[0] == WithKey(a, key, ka)[0] == WithKey(b, key, ka)[0] == b[0];
      forall k
        ensures WithKey(a[1..], key, k) == WithKey(b[1..], key, k)
      {
        WithKeyTail(a, key, k);
        WithKeyTail(b, key, k);
      }
      SortedStableEqual(a[1..], b[1..], key);
      assert a == [a[0]] + a[1..] && b == [b[0]] + b[1..];
    }
  }

  // ---------------------------------------------------------------------------
  // Top k of a sorted copy
  // ---------------------------------------------------------------------------

  function Min(a: int, b: int): int { if a < b then a else b }

  /** `a` is a prefix of `b`. */
  ghost predicate IsPrefix<T>(a: seq<T>, b: seq<T>)
  {
    |a| <= |b| && b[..|a|] == a
  }

  /** Cutting a sequence short keeps, for every key, a prefix of the elements with that key. */
  lemma {:induction false} WithKeyPrefix<T>(s: seq<T>, m: nat, key: T -> int, k: int)
    requires m <= |s|
    ensures IsPrefix(WithKey(s[..m], key, k), WithKey(s, key, k))
  {
    if m == 0 {
      assert s[..m] == [];
    } else {
      assert s[..m][0] == s[0] && s[..m][1..] == s[1..][..m - 1];
      WithKeyPrefix(s[1..], m - 1, key, k);
    }
  }

  /** `[...s].sort(byKeyDesc).slice(0, n)`. */
  function TopK<T>(s: seq<T>, key: T -> int, n: nat): (r: seq<T>)
    ensures |r| == Min(n, |s|)
    ensures SortedDesc(r, key)
    ensures multiset(r) <= multiset(s)
    ensures forall x, y :: x in multiset(r) && y in multiset(s) - multiset(r) ==> key(y) <= key(x)
    ensures forall k :: IsPrefix(WithKey(r, key, k), WithKey(s, key, k))
  {
    var sorted := SortDesc(s, key);
    var r := sorted[..Min(n, |s|)];
    PrefixSplit(sorted, Min(n, |s|), key);
    assert forall k :: IsPrefix(WithKey(r, key, k), WithKey(s, key, k)) by {
      forall k ensures IsPrefix(WithKey(r, key, k), WithKey(s, key, k)) {
        WithKeyPrefix(sorted, Min(n, |s|), key, k);
      }
    }
    r
  }

  /** On a sequence that is already in order, the top `n` are its first `n`. */
  lemma TopKOfSorted<T>(s: seq<T>, key: T -> int, n: nat)
    requires SortedDesc(s, key)
    ensures TopK(s, key, n) == s[..Min(n, |s|)]
  {
    SortDescOfSorted(s, key);
  }

  lemma PrefixSplit<T>(s: seq<T>, m: nat, key: T -> int)
    requires m <= |s| && SortedDesc(s, key)
    ensures multiset(s[..m]) <= multiset(s)
    ensures forall x, y :: x in multiset(s[..m]) && y in multiset(s) - multiset(s[..m]) ==> key(y) <= key(x)
  {
    assert s == s[..m] + s[m..];
    assert multiset(s) == multiset(s[..m]) + multiset(s[m..]);
    forall x, y | x in multiset(s[..m]) && y in multiset(s) - multiset(s[..m])
      ensures key(y) <= key(x)
    {
      assert y in multiset(s[m..]);
      var i :| 0 <= i < m && s[..m][i] == x;
      var j :| 0 <= j < |s| - m && s[m..][j] == y;
      assert s[i] == x && s[m + j] == y;
    }
  }
}
