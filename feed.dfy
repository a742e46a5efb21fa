/**
 * The feed of `src/app/page.tsx`: icebreakers grouped into month buckets by a
 * dictionary accumulator, the month keys ordered newest first, and the empty
 * state. The locale month label of a timestamp (`monthKey`) and the date a
 * label parses back to (`monthDate`) are parameters.
 */
module Feed {
  import opened Types
  import Seqs

  ghost predicate NoDuplicates(s: seq<string>)
  {
    forall i, j :: 0 <= i < j < |s| ==> s[i] != s[j]
  }

  /** The dictionary key of an icebreaker: the month label of its creation instant. */
  function MonthOf(monthKey: int -> string, ib: Icebreaker): string
  {
    monthKey(ib.createdAt)
  }

  /** The key depends on the creation instant alone: icebreakers created together share a bucket. */
  lemma SameInstantSameMonth(monthKey: int -> string, a: Icebreaker, b: Icebreaker)
    ensures a.createdAt == b.createdAt ==> MonthOf(monthKey, a) == MonthOf(monthKey, b)
  {
  }

  /** The month labels of `ibs`, each once, in the order they first occur: the dictionary's key order. */
  function MonthsOf(ibs: seq<Icebreaker>, monthKey: int -> string): (r: seq<string>)
    ensures forall m :: m in r <==> exists i :: 0 <= i < |ibs| && MonthOf(monthKey, ibs[i]) == m
    ensures NoDuplicates(r)
    ensures |r| <= |ibs|
  {
    if ibs == [] then []
    else
      var init := ibs[..|ibs| - 1];
      var months := MonthsOf(init, monthKey);
      var m := MonthOf(monthKey, ibs[|ibs| - 1]);
      assert forall i :: 0 <= i < |init| ==> init[i] == ibs[i];
      if m in months then months else months + [m]
  }

  /** The icebreakers of month `m`, in input order. */
  function InMonth(ibs: seq<Icebreaker>, monthKey: int -> string, m: string): (r: seq<Icebreaker>)
    ensures |r| <= |ibs|
    ensures forall ib :: ib in r <==> ib in ibs && MonthOf(monthKey, ib) == m
  {
    if ibs == [] then []
    else
      var init := ibs[..|ibs| - 1];
      var last := ibs[|ibs| - 1];
      assert ibs == init + [last];
      var r := InMonth(init, monthKey, m);
      if MonthOf(monthKey, last) == m then r + [last] else r
  }

  /**
   * `groupIcebreakersByMonth`: the `reduce` over the icebreakers that creates a
   * bucket the first time a month is seen and pushes each icebreaker onto its
   * month's bucket. `months` is the dictionary's keys in insertion order.
   */
  method GroupByMonth(ibs: seq<Icebreaker>, monthKey: int -> string)
    returns (months: seq<string>, groups: map<string, seq<Icebreaker>>)
    ensures months == MonthsOf(ibs, monthKey)
    ensures forall m :: m in groups <==> m in months
    ensures forall m | m in groups :: groups[m] == InMonth(ibs, monthKey, m)
  {
    months := [];
    groups := map[];
    for i := 0 to |ibs|
      invariant months == MonthsOf(ibs[..i], monthKey)
      invariant forall m :: m in groups <==> m in months
      invariant forall m | m in groups :: groups[m] == InMonth(ibs[..i], monthKey, m)
    {
      var ib := ibs[i];
      var key := MonthOf(monthKey, ib);
      assert ibs[..i + 1][..i] == ibs[..i] && ibs[..i + 1][i] == ib;
      if key !in groups {
        NotSeenEmpty(ibs[..i], monthKey, key);
        groups := groups[key := []];
        months := months + [key];
      }
      groups := groups[key := groups[key] + [ib]];
    }
    assert ibs[..|ibs|] == ibs;
  }

  /** A month none of the icebreakers falls in has an empty bucket. */
  lemma NotSeenEmpty(ibs: seq<Icebreaker>, monthKey: int -> string, m: string)
    requires m !in MonthsOf(ibs, monthKey)
    ensures InMonth(ibs, monthKey, m) == []
  {
  }

  /** Every month that is a key has a non-empty bucket. */
  lemma NoEmptyGroup(ibs: seq<Icebreaker>, monthKey: int -> string, m: string)
    requires m in MonthsOf(ibs, monthKey)
    ensures InMonth(ibs, monthKey, m) != []
  {
    var i :| 0 <= i < |ibs| && MonthOf(monthKey, ibs[i]) == m;
    assert ibs[i] in InMonth(ibs, monthKey, m);
  }

  /** Each icebreaker is in exactly the bucket of its own month. */
  lemma GroupsPartition(ibs: seq<Icebreaker>, monthKey: int -> string, ib: Icebreaker)
    requires ib in ibs
    ensures MonthOf(monthKey, ib) in MonthsOf(ibs, monthKey)
    ensures forall m :: ib in InMonth(ibs, monthKey, m) <==> m == MonthOf(monthKey, ib)
  {
    var i :| 0 <= i < |ibs| && ibs[i] == ib;
  }

  /** The total size of the buckets of `months`. */
  function GroupTotal(months: seq<string>, ibs: seq<Icebreaker>, monthKey: int -> string): nat
  {
    if months == [] then 0 else |InMonth(ibs, monthKey, months[0])| + GroupTotal(months[1..], ibs, monthKey)
  }

  lemma {:induction false} GroupTotalAppend(a: seq<string>, b: seq<string>, ibs: seq<Icebreaker>, monthKey: int -> string)
    ensures GroupTotal(a + b, ibs, monthKey) == GroupTotal(a, ibs, monthKey) + GroupTotal(b, ibs, monthKey)
  {
    if a == [] {
      assert a + b == b;
    } else {
      assert (a + b)[0] == a[0] && (a + b)[1..] == a[1..] + b;
      GroupTotalAppend(a[1..], b, ibs, monthKey);
    }
  }

  /** Adding one icebreaker grows the total of distinct months by one exactly when its month is among them. */
  lemma {:induction false} GroupTotalStep(months: seq<string>, ibs: seq<Icebreaker>, x: Icebreaker, monthKey: int -> string)
    requires NoDuplicates(months)
    ensures GroupTotal(months, ibs + [x], monthKey)
         == GroupTotal(months, ibs, monthKey) + (if MonthOf(monthKey, x) in months then 1 else 0)
  {
    if months != [] {
      var s := ibs + [x];
      assert s[..|s| - 1] == ibs && s[|s| - 1] == x;
      assert NoDuplicates(months[1..]) by {
        forall i, j | 0 <= i < j < |months[1..]| ensures months[1..][i] != months[1..][j] {
          assert months[1..][i] == months[i + 1] && months[1..][j] == months[j + 1];
        }
      }
      GroupTotalStep(months[1..], ibs, x, monthKey);
      assert MonthOf(monthKey, x) in months <==> MonthOf(monthKey, x) == months[0] || MonthOf(monthKey, x) in months[1..] by {
        assert months == [months[0]] + months[1..];
      }
    }
  }

  /** The bucket sizes add up to the number of icebreakers. */
  lemma {:induction false} GroupSizesSum(ibs: seq<Icebreaker>, monthKey: int -> string)
    ensures GroupTotal(MonthsOf(ibs, monthKey), ibs, monthKey) == |ibs|
  {
    if ibs != [] {
      var init, x := ibs[..|ibs| - 1], ibs[|ibs| - 1];
      assert ibs == init + [x];
      var before := MonthsOf(init, monthKey);
      GroupSizesSum(init, monthKey);
      GroupTotalStep(before, init, x, monthKey);
      MonthsStep(init, x, monthKey);
      if MonthOf(monthKey, x) !in before {
        GroupTotalAppend(before, [MonthOf(monthKey, x)], init + [x], monthKey);
      }
    }
  }

  /** One more icebreaker adds its month at the end of the key order when it is new, with a bucket of one. */
  lemma MonthsStep(ibs: seq<Icebreaker>, x: Icebreaker, monthKey: int -> string)
    ensures var m := MonthOf(monthKey, x);
      MonthsOf(ibs + [x], monthKey) == if m in MonthsOf(ibs, monthKey) then MonthsOf(ibs, monthKey) else MonthsOf(ibs, monthKey) + [m]
    ensures var m := MonthOf(monthKey, x);
      m !in MonthsOf(ibs, monthKey) ==> InMonth(ibs + [x], monthKey, m) == [x]
  {
    var s := ibs + [x];
    assert s[..|s| - 1] == ibs && s[|s| - 1] == x;
    if MonthOf(monthKey, x) !in MonthsOf(ibs, monthKey) {
      NotSeenEmpty(ibs, monthKey, MonthOf(monthKey, x));
    }
  }

  /** No icebreakers, no months, and the other way round. */
  lemma NoMonthsIffEmpty(ibs: seq<Icebreaker>, monthKey: int -> string)
    ensures MonthsOf(ibs, monthKey) == [] <==> ibs == []
  {
    if ibs != [] {
      assert MonthOf(monthKey, ibs[0]) in MonthsOf(ibs, monthKey);
    }
  }

  /**
   * The feed page: the groups, the months sorted newest first by the date each
   * label parses to (a stable sort of the key order), and whether the empty
   * state is shown.
   */
  method FeedPage(ibs: seq<Icebreaker>, monthKey: int -> string, monthDate: string -> int)
    returns (months: seq<string>, groups: map<string, seq<Icebreaker>>, showEmptyState: bool)
    ensures Seqs.SortedDesc(months, monthDate)
    ensures months == Seqs.SortDesc(MonthsOf(ibs, monthKey), monthDate)
    ensures forall m :: m in groups <==> m in months
    ensures forall m | m in groups :: groups[m] == InMonth(ibs, monthKey, m) && groups[m] != []
    ensures showEmptyState <==> ibs == []
    ensures showEmptyState <==> months == []
  {
    var keys;
    keys, groups := GroupByMonth(ibs, monthKey);
    months := Seqs.SortDesc(keys, monthDate);
    forall m | m in groups ensures groups[m] != [] {
      NoEmptyGroup(ibs, monthKey, m);
    }
    forall m ensures m in months <==> m in keys {
      assert m in multiset(months) <==> m in multiset(keys);
    }
    NoMonthsIffEmpty(ibs, monthKey);
    showEmptyState := |ibs| == 0;
  }
}
