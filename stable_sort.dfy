/** The re-sort after a move, `newRecords.sort((a, b) => a.order - b.order)`:
    JavaScript's sort is stable, so records of equal rank keep their array
    order. It is modelled as a stable insertion sort. */
module StableSort {
  import opened Types

  /** Ranks are non-decreasing along the array. */
  ghost predicate Sorted(s: seq<Record>) {
    forall i :: 0 < i < |s| ==> s[i - 1].order <= s[i].order
  }

  /** Puts `x` before the first record whose rank is at least its own. */
  function Insert(x: Record, t: seq<Record>): (r: seq<Record>)
    ensures |r| == |t| + 1
    ensures r[0] == x || (t != [] && r[0] == t[0])
  {
    if t == [] then [x]
    else if x.order <= t[0].order then [x] + t
    else
      assert t == [t[0]] + t[1..];
      [t[0]] + Insert(x, t[1..])
  }

  /** Inserting into a sorted list keeps it sorted. */
  lemma {:induction false} InsertKeepsSorted(x: Record, t: seq<Record>)
    requires Sorted(t)
    ensures Sorted(Insert(x, t))
  {
    if t != [] && x.order > t[0].order {
      var tail := t[1..];
      assert Sorted(tail) by {
        forall i | 0 < i < |tail| ensures tail[i - 1].order <= tail[i].order {
          assert tail[i - 1] == t[i] && tail[i] == t[i + 1];
        }
      }
      InsertKeepsSorted(x, tail);
      var rest := Insert(x, tail);
      assert tail != [] ==> t[0].order <= tail[0].order by {
        if tail != [] { assert t[1] == tail[0]; }
      }
      var r := [t[0]] + rest;
      forall i | 0 < i < |r| ensures r[i - 1].order <= r[i].order {
        if i > 1 { assert r[i - 1] == rest[i - 2] && r[i] == rest[i - 1]; }
      }
    }
  }

  /** The stable sort by rank. */
  function SortByOrder(s: seq<Record>): (r: seq<Record>)
    ensures |r| == |s| && Sorted(r)
  {
    if s == [] then []
    else
      assert s == [s[0]] + s[1..];
      InsertKeepsSorted(s[0], SortByOrder(s[1..]));
      Insert(s[0], SortByOrder(s[1..]))
  }

  /** Inserting adds exactly the one record. */
  lemma {:induction false} InsertPermutes(x: Record, t: seq<Record>)
    ensures multiset(Insert(x, t)) == multiset(t) + multiset{x}
  {
    if t != [] && x.order > t[0].order {
      InsertPermutes(x, t[1..]);
      assert t == [t[0]] + t[1..];
    }
  }

  /** The sort is a permutation of its input. */
  lemma {:induction false} SortPermutes(s: seq<Record>)
    ensures multiset(SortByOrder(s)) == multiset(s)
  {
    if s != [] {
      SortPermutes(s[1..]);
      InsertPermutes(s[0], SortByOrder(s[1..]));
      assert s == [s[0]] + s[1..];
    }
  }

  /** Every suffix of a sorted list is sorted. */
  lemma SortedSuffix(t: seq<Record>, lo: nat)
    requires Sorted(t) && lo <= |t|
    ensures Sorted(t[lo..])
  {
    forall i | 0 < i < |t[lo..]| ensures t[lo..][i - 1].order <= t[lo..][i].order {
      assert t[lo..][i - 1] == t[lo + i - 1] && t[lo..][i] == t[lo + i];
    }
  }

  /** Sorting an already sorted list changes nothing. */
  lemma {:induction false} SortOfSorted(s: seq<Record>)
    requires Sorted(s)
    ensures SortByOrder(s) == s
  {
    if s != [] {
      SortedSuffix(s, 1);
      SortOfSorted(s[1..]);
      assert s == [s[0]] + s[1..];
      assert |s| > 1 ==> s[1..][0] == s[1];
    }
  }

  /** When a prefix followed by the sorted rest is sorted, the sort keeps the
      prefix in place. */
  lemma {:induction false} SortKeepsPrefix(s: seq<Record>, k: nat)
    requires k <= |s|
    requires Sorted(s[..k] + SortByOrder(s[k..]))
    ensures SortByOrder(s) == s[..k] + SortByOrder(s[k..])
  {
    if k > 0 {
      var t := SortByOrder(s[k..]);
      var u := s[1..k] + t;
      var whole := s[..k] + t;
      assert s[1..][..k-1] == s[1..k] && s[1..][k-1..] == s[k..];
      assert whole == [s[0]] + u;
      SortedSuffix(whole, 1);
      assert whole[1..] == u;
      SortKeepsPrefix(s[1..], k - 1);
      assert SortByOrder(s[1..]) == u;
      assert u != [] ==> s[0].order <= u[0].order by {
        if u != [] { assert whole[0] == s[0] && whole[1] == u[0]; }
      }
      assert s == [s[0]] + s[1..];
    }
  }

  /** The sort of a non-empty list inserts its head into the sorted tail. */
  lemma SortUnfold(y: Record, t: seq<Record>)
    ensures SortByOrder([y] + t) == Insert(y, SortByOrder(t))
  {
    assert ([y] + t)[0] == y && ([y] + t)[1..] == t;
  }

  /** Dropping the second record of a sorted list leaves it sorted. */
  lemma SortedWithoutSecond(x: Record, y: Record, b: seq<Record>)
    requires Sorted([x, y] + b)
    ensures Sorted([x] + b)
    ensures b != [] ==> y.order <= b[0].order
  {
    var fixed := [x, y] + b;
    var xb := [x] + b;
    forall i | 0 < i < |xb| ensures xb[i - 1].order <= xb[i].order {
      if i == 1 {
        assert fixed[0] == x && fixed[1] == y && fixed[2] == b[0];
      } else {
        assert xb[i - 1] == fixed[i] && xb[i] == fixed[i + 1];
      }
    }
    if b != [] { assert fixed[1] == y && fixed[2] == b[0]; }
  }

  /** Inserting `y` into `x` followed by a list that starts at `y` or later
      puts it right after `x`. */
  lemma InsertAfterFirst(x: Record, y: Record, b: seq<Record>)
    requires y.order > x.order
    requires b != [] ==> y.order <= b[0].order
    ensures Insert(y, [x] + b) == [x, y] + b
  {
    var xb := [x] + b;
    assert xb[0] == x && xb[1..] == b;
    assert Insert(y, xb) == [x] + Insert(y, b);
    if b == [] {
      assert Insert(y, b) == [y];
      assert [x] + [y] == [x, y] + b;
    } else {
      assert Insert(y, b) == [y] + b;
      assert [x] + ([y] + b) == [x, y] + b;
    }
  }

  /** The sort undoes an inversion of the first two records of a list that
      is otherwise sorted. */
  lemma SortFixesLeadingInversion(x: Record, y: Record, b: seq<Record>)
    requires y.order > x.order
    requires Sorted([x, y] + b)
    ensures SortByOrder([y, x] + b) == [x, y] + b
  {
    SortedWithoutSecond(x, y, b);
    SortOfSorted([x] + b);
    InsertAfterFirst(x, y, b);
    SortUnfold(y, [x] + b);
    assert [y] + ([x] + b) == [y, x] + b;
  }

  /** One adjacent inversion in an otherwise sorted list is undone by the sort:
      the records `y, x` come out as `x, y`. */
  lemma SortFixesInversion(a: seq<Record>, x: Record, y: Record, b: seq<Record>)
    requires y.order > x.order
    requires Sorted(a + [x, y] + b)
    ensures SortByOrder(a + [y, x] + b) == a + [x, y] + b
  {
    var fixed, tail := a + [x, y] + b, [x, y] + b;
    var s := a + [y, x] + b;
    assert fixed == a + tail;
    SortedSuffix(fixed, |a|);
    assert fixed[|a|..] == tail;
    SortFixesLeadingInversion(x, y, b);
    assert s[..|a|] == a && s[|a|..] == [y, x] + b;
    assert SortByOrder(s[|a|..]) == tail;
    SortKeepsPrefix(s, |a|);
  }

  /** The records of rank k, in array order. */
  function WithOrder(s: seq<Record>, k: int): seq<Record>
  {
    if s == [] then []
    else (if s[0].order == k then [s[0]] else []) + WithOrder(s[1..], k)
  }

  /** The records of rank k in a list with a given head. */
  lemma WithOrderCons(x: Record, t: seq<Record>, k: int)
    ensures WithOrder([x] + t, k) == (if x.order == k then [x] else []) + WithOrder(t, k)
  {
    assert ([x] + t)[0] == x && ([x] + t)[1..] == t;
  }

  /** Insertion puts `x` before every record of its rank already in the
      list: it passes only records of lower rank. */
  lemma {:induction false} InsertStable(x: Record, t: seq<Record>, k: int)
    ensures WithOrder(Insert(x, t), k) == (if x.order == k then [x] else []) + WithOrder(t, k)
  {
    if t == [] {
      WithOrderCons(x, t, k);
    } else if x.order <= t[0].order {
      WithOrderCons(x, t, k);
    } else {
      var y, rest := t[0], t[1..];
      assert t == [y] + rest;
      assert Insert(x, t) == [y] + Insert(x, rest);
      InsertStable(x, rest, k);
      WithOrderCons(y, Insert(x, rest), k);
      WithOrderCons(y, rest, k);
      var w := WithOrder(rest, k);
      if x.order == k {
        assert WithOrder(Insert(x, t), k) == [x] + w;
        assert WithOrder(t, k) == w;
      } else {
        assert WithOrder(Insert(x, t), k) == WithOrder(t, k);
      }
    }
  }

  /** The sort is stable: for every rank, the records holding it come out in
      the order they had in the input. */
  lemma {:induction false} SortStable(s: seq<Record>, k: int)
    ensures WithOrder(SortByOrder(s), k) == WithOrder(s, k)
  {
    if s != [] {
      SortStable(s[1..], k);
      InsertStable(s[0], SortByOrder(s[1..]), k);
    }
  }

  /** Stability for every rank at once. */
  lemma SortStableAll(s: seq<Record>)
    ensures forall k :: WithOrder(SortByOrder(s), k) == WithOrder(s, k)
  {
    forall k ensures WithOrder(SortByOrder(s), k) == WithOrder(s, k) {
      SortStable(s, k);
    }
  }
}
