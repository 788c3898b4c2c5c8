/** The record store of the editor: the ranked list loaded from the capture,
    and the three edits the user applies to it (move up, move down, delete).

    Policy of this model. A move finds the record by rank and, if it has an
    array neighbour in that direction, exchanges the two records' ranks and
    re-sorts by rank; a record at the boundary, or a rank no record holds,
    leaves the list as it is. A delete removes the record holding the rank
    and does not renumber the others, so ranks may have gaps afterwards; an
    absent rank leaves the list as it is. While ranks are dense (after a
    load) the exchange of ranks is exactly what the source's +1/-1 update
    does; the module Actions models the source's own update and proves that. */
module Store {
  import opened Types
  import opened StableSort

  /** Ranks strictly increase along the array: the invariant of the store. */
  ghost predicate StrictlySorted(s: seq<Record>) {
    forall i, j :: 0 <= i < j < |s| ==> s[i].order < s[j].order
  }

  /** Every record's rank is its array position, as right after a load. */
  ghost predicate Dense(s: seq<Record>) {
    forall i :: 0 <= i < |s| ==> s[i].order == i
  }

  /** Load: the i-th capture becomes the record of rank i. */
  function Wrap(captures: seq<Capture>): (r: seq<Record>)
    ensures |r| == |captures| && Dense(r) && StrictlySorted(r)
    ensures Payloads(r) == captures
  {
    seq(|captures|, i requires 0 <= i < |captures| => Record(i, captures[i]))
  }

  /** `findIndex(record => record.order === order)`: the first array position
      holding the rank, or -1 when none does. */
  function IndexOf(s: seq<Record>, order: int): (i: int)
    ensures -1 <= i < |s|
    ensures 0 <= i ==> s[i].order == order && forall j :: 0 <= j < i ==> s[j].order != order
    ensures i == -1 <==> forall j :: 0 <= j < |s| ==> s[j].order != order
  {
    if s == [] then -1
    else if s[0].order == order then 0
    else
      var k := IndexOf(s[1..], order);
      assert forall j :: 1 <= j < |s| ==> s[j] == s[1..][j - 1];
      if k == -1 then -1 else k + 1
  }

  /** Exchanges the payloads at positions j and j + 1; the ranks stay where
      they are. */
  function SwapPayloads(s: seq<Record>, j: nat): (r: seq<Record>)
    requires j + 1 < |s|
    ensures |r| == |s| && Orders(r) == Orders(s)
    ensures r[j].data == s[j + 1].data && r[j + 1].data == s[j].data
    ensures forall k :: 0 <= k < |s| && k != j && k != j + 1 ==> r[k] == s[k]
  {
    s[j := s[j].(data := s[j + 1].data)][j + 1 := s[j + 1].(data := s[j].data)]
  }

  /** Exchanges the ranks at positions j and j + 1; the payloads stay where
      they are. */
  function Exchange(s: seq<Record>, j: nat): (r: seq<Record>)
    requires j + 1 < |s|
    ensures |r| == |s| && Payloads(r) == Payloads(s)
  {
    var r := s[j := s[j].(order := s[j + 1].order)][j + 1 := s[j + 1].(order := s[j].order)];
    assert Payloads(r) == Payloads(s);
    r
  }

  /** Move up: the record of the given rank changes places with the record
      just before it in the array. */
  function MoveUpResult(s: seq<Record>, order: int): (r: seq<Record>)
    ensures |r| == |s| && Orders(r) == Orders(s)
    ensures IndexOf(s, order) <= 0 ==> r == s
  {
    var i := IndexOf(s, order);
    if i <= 0 then s else SwapPayloads(s, i - 1)
  }

  /** Move down: the record of the given rank changes places with the record
      just after it in the array. */
  function MoveDownResult(s: seq<Record>, order: int): (r: seq<Record>)
    ensures |r| == |s| && Orders(r) == Orders(s)
    ensures IndexOf(s, order) == -1 || IndexOf(s, order) == |s| - 1 ==> r == s
  {
    var i := IndexOf(s, order);
    if i == -1 || i == |s| - 1 then s else SwapPayloads(s, i)
  }

  /** Delete: the record of the given rank is removed; nothing is renumbered. */
  function DeleteResult(s: seq<Record>, order: int): (r: seq<Record>)
    ensures IndexOf(s, order) == -1 ==> r == s
    ensures IndexOf(s, order) >= 0 ==> |r| == |s| - 1
  {
    var i := IndexOf(s, order);
    if i == -1 then s else s[..i] + s[i + 1..]
  }

  /** The lists with the same ranks in the same places are strictly sorted
      together. */
  lemma SameOrdersSorted(s: seq<Record>, t: seq<Record>)
    requires Orders(s) == Orders(t) && StrictlySorted(s)
    ensures StrictlySorted(t) && Sorted(t)
  {
    assert |s| == |Orders(s)|;
    forall i, j | 0 <= i < j < |t| ensures t[i].order < t[j].order {
      assert Orders(t)[i] == Orders(s)[i] && Orders(t)[j] == Orders(s)[j];
    }
  }

  /** In a strictly sorted list, exchanging two neighbouring ranks and
      re-sorting moves the two payloads past each other and leaves every
      rank where it was. */
  lemma ExchangeThenSort(s: seq<Record>, j: nat)
    requires StrictlySorted(s) && j + 1 < |s|
    ensures SortByOrder(Exchange(s, j)) == SwapPayloads(s, j)
  {
    var a, b := s[..j], s[j + 2..];
    var x, y := Record(s[j].order, s[j + 1].data), Record(s[j + 1].order, s[j].data);
    assert Exchange(s, j) == a + [y, x] + b;
    assert SwapPayloads(s, j) == a + [x, y] + b;
    SameOrdersSorted(s, SwapPayloads(s, j));
    SortFixesInversion(a, x, y, b);
  }

  /** In a strictly sorted list a rank names exactly one position. */
  lemma IndexOfRank(s: seq<Record>, j: nat)
    requires StrictlySorted(s) && j < |s|
    ensures IndexOf(s, s[j].order) == j
  {
  }

  /** Load followed by reading the records back in rank order gives the
      captures in the order they were received. */
  lemma LoadRoundTrip(captures: seq<Capture>)
    ensures Payloads(SortByOrder(Wrap(captures))) == captures
  {
    var w := Wrap(captures);
    assert Sorted(w);
    SortOfSorted(w);
  }

  /** A move keeps the ranks in their places, so it keeps the store's
      invariant, and keeps ranks dense when they were dense. */
  lemma MovesKeepInvariant(s: seq<Record>, order: int)
    requires StrictlySorted(s)
    ensures StrictlySorted(MoveUpResult(s, order)) && StrictlySorted(MoveDownResult(s, order))
    ensures Dense(s) ==> Dense(MoveUpResult(s, order)) && Dense(MoveDownResult(s, order))
  {
    SameOrdersSorted(s, MoveUpResult(s, order));
    SameOrdersSorted(s, MoveDownResult(s, order));
    var u, d := MoveUpResult(s, order), MoveDownResult(s, order);
    forall i | 0 <= i < |s| ensures u[i].order == s[i].order && d[i].order == s[i].order {
      assert Orders(u)[i] == Orders(s)[i] && Orders(d)[i] == Orders(s)[i];
    }
  }

  /** Exchanging two neighbouring payloads keeps the same payloads. */
  lemma SwapPermutes(s: seq<Record>, j: nat)
    requires j + 1 < |s|
    ensures multiset(Payloads(SwapPayloads(s, j))) == multiset(Payloads(s))
  {
    assert Payloads(SwapPayloads(s, j)) == Payloads(s)[j := s[j + 1].data][j + 1 := s[j].data];
  }

  /** Neither move loses or duplicates a payload. */
  lemma MovesPermute(s: seq<Record>, order: int)
    ensures multiset(Payloads(MoveUpResult(s, order))) == multiset(Payloads(s))
    ensures multiset(Payloads(MoveDownResult(s, order))) == multiset(Payloads(s))
  {
    var i := IndexOf(s, order);
    if i > 0 { SwapPermutes(s, i - 1); }
    if i != -1 && i != |s| - 1 { SwapPermutes(s, i); }
  }

  /** Move up of the record at position i > 0 puts its payload at i - 1 and
      the payload that was there at i, and nothing else changes. */
  lemma MoveUpSwaps(s: seq<Record>, i: nat)
    requires StrictlySorted(s) && 0 < i < |s|
    ensures var r := MoveUpResult(s, s[i].order);
      r[i - 1] == Record(s[i - 1].order, s[i].data) && r[i] == Record(s[i].order, s[i - 1].data) &&
      forall k :: 0 <= k < |s| && k != i - 1 && k != i ==> r[k] == s[k]
  {
    IndexOfRank(s, i);
    var r := MoveUpResult(s, s[i].order);
    assert Orders(r)[i - 1] == Orders(s)[i - 1] && Orders(r)[i] == Orders(s)[i];
  }

  /** Move down of the record at position i < |s| - 1 puts its payload at
      i + 1 and the payload that was there at i, and nothing else changes. */
  lemma MoveDownSwaps(s: seq<Record>, i: nat)
    requires StrictlySorted(s) && i + 1 < |s|
    ensures var r := MoveDownResult(s, s[i].order);
      r[i + 1] == Record(s[i + 1].order, s[i].data) && r[i] == Record(s[i].order, s[i + 1].data) &&
      forall k :: 0 <= k < |s| && k != i && k != i + 1 ==> r[k] == s[k]
  {
    IndexOfRank(s, i);
    var r := MoveDownResult(s, s[i].order);
    assert Orders(r)[i + 1] == Orders(s)[i + 1] && Orders(r)[i] == Orders(s)[i];
  }

  /** Moving a record up and then moving it down again, by the rank it holds
      after the first move, restores the list. */
  lemma UpThenDownRestores(s: seq<Record>, i: nat)
    requires StrictlySorted(s) && 0 < i < |s|
    ensures MoveDownResult(MoveUpResult(s, s[i].order), s[i - 1].order) == s
  {
    var u := MoveUpResult(s, s[i].order);
    MoveUpSwaps(s, i);
    MovesKeepInvariant(s, s[i].order);
    IndexOfRank(u, i - 1);
    assert u[i - 1].order == s[i - 1].order;
    MoveDownSwaps(u, i - 1);
    var d := MoveDownResult(u, s[i - 1].order);
    forall k | 0 <= k < |s| ensures d[k] == s[k] {
      if k != i - 1 && k != i { assert d[k] == u[k]; }
    }
  }

  /** Moving a record down and then moving it up again, by the rank it holds
      after the first move, restores the list. */
  lemma DownThenUpRestores(s: seq<Record>, i: nat)
    requires StrictlySorted(s) && i + 1 < |s|
    ensures MoveUpResult(MoveDownResult(s, s[i].order), s[i + 1].order) == s
  {
    var d := MoveDownResult(s, s[i].order);
    MoveDownSwaps(s, i);
    MovesKeepInvariant(s, s[i].order);
    IndexOfRank(d, i + 1);
    assert d[i + 1].order == s[i + 1].order;
    MoveUpSwaps(d, i + 1);
    var u := MoveUpResult(d, s[i + 1].order);
    forall k | 0 <= k < |s| ensures u[k] == s[k] {
      if k != i && k != i + 1 { assert u[k] == d[k]; }
    }
  }

  /** Removing position i keeps the other records in their relative order. */
  lemma RemoveAt(s: seq<Record>, i: nat)
    requires i < |s|
    ensures var r := s[..i] + s[i + 1..];
      |r| == |s| - 1 && multiset(r) + multiset{s[i]} == multiset(s) &&
      forall k :: 0 <= k < |r| ==> r[k] == s[if k < i then k else k + 1]
  {
    var r := s[..i] + s[i + 1..];
    assert s == s[..i] + [s[i]] + s[i + 1..];
    forall k | 0 <= k < |r| ensures r[k] == s[if k < i then k else k + 1] {
      if k < i { assert r[k] == s[..i][k]; } else { assert r[k] == s[i + 1..][k - i]; }
    }
  }

  /** Removing a position from a strictly sorted list keeps it strictly
      sorted and drops the rank that position held. */
  lemma RemoveAtSorted(s: seq<Record>, i: nat)
    requires StrictlySorted(s) && i < |s|
    ensures var r := s[..i] + s[i + 1..];
      StrictlySorted(r) && forall k :: 0 <= k < |r| ==> r[k].order != s[i].order
  {
    var r := s[..i] + s[i + 1..];
    RemoveAt(s, i);
    forall p, q | 0 <= p < q < |r| ensures r[p].order < r[q].order {
      var p', q' := if p < i then p else p + 1, if q < i then q else q + 1;
      assert r[p] == s[p'] && r[q] == s[q'] && p' < q';
    }
    forall k | 0 <= k < |r| ensures r[k].order != s[i].order {
      var k' := if k < i then k else k + 1;
      assert r[k] == s[k'] && k' != i;
    }
  }

  /** Deleting a rank that is held removes exactly the record holding it:
      one fewer record, the others keep their relative order and their
      ranks (no renumbering), the rank is no longer held, and the invariant
      is kept. */
  lemma DeleteRemovesExactlyOne(s: seq<Record>, order: int)
    requires StrictlySorted(s) && IndexOf(s, order) >= 0
    ensures var i, r := IndexOf(s, order), DeleteResult(s, order);
      |r| == |s| - 1 &&
      multiset(r) + multiset{s[i]} == multiset(s) &&
      (forall k :: 0 <= k < |r| ==> r[k] == s[if k < i then k else k + 1]) &&
      (forall k :: 0 <= k < |r| ==> r[k].order != order) &&
      StrictlySorted(r)
  {
    var i := IndexOf(s, order);
    assert DeleteResult(s, order) == s[..i] + s[i + 1..];
    RemoveAt(s, i);
    RemoveAtSorted(s, i);
  }

  /** After a load, deleting any record but the last leaves a gap in the
      ranks: the store does not renumber. */
  lemma DeleteLeavesGap(s: seq<Record>, order: int)
    requires Dense(s) && 0 <= order < |s| - 1
    ensures !Dense(DeleteResult(s, order))
  {
    assert StrictlySorted(s);
    IndexOfRank(s, order);
    DeleteRemovesExactlyOne(s, order);
    var r := DeleteResult(s, order);
    assert r[order] == s[order + 1];
  }

  /** The list of records the editor shows, as an object whose list the
      edits replace. */
  class RecordStore {
    var records: seq<Record>

    ghost predicate Valid()
      reads this
    {
      StrictlySorted(records)
    }

    /** The state before the capture has arrived: no records. */
    constructor ()
      ensures Valid() && records == []
    {
      records := [];
    }

    /** `data.records.map((record, i) => ({order: i, data: record}))`. */
    method Load(captures: seq<Capture>)
      modifies this
      ensures Valid() && records == Wrap(captures)
      ensures Dense(records) && Payloads(records) == captures
    {
      records := Wrap(captures);
    }

    /** Exchanges the rank of the record holding `order` with that of the
        record before it in the array, then re-sorts by rank. */
    method MoveUp(order: int)
      requires Valid()
      modifies this
      ensures Valid() && records == MoveUpResult(old(records), order)
    {
      var s := records;
      var i := IndexOf(s, order);
      if i > 0 {
        ExchangeThenSort(s, i - 1);
        records := SortByOrder(Exchange(s, i - 1));
      } else {
        SameOrdersSorted(s, s);
        SortOfSorted(s);
        records := SortByOrder(s);
      }
      MovesKeepInvariant(s, order);
    }

    /** Exchanges the rank of the record holding `order` with that of the
        record after it in the array, then re-sorts by rank. */
    method MoveDown(order: int)
      requires Valid()
      modifies this
      ensures Valid() && records == MoveDownResult(old(records), order)
    {
      var s := records;
      var i := IndexOf(s, order);
      if 0 <= i < |s| - 1 {
        ExchangeThenSort(s, i);
        records := SortByOrder(Exchange(s, i));
      } else {
        SameOrdersSorted(s, s);
        SortOfSorted(s);
        records := SortByOrder(s);
      }
      MovesKeepInvariant(s, order);
    }

    /** `splice(findIndex(...), 1)`, guarded: an absent rank changes nothing. */
    method Delete(order: int)
      requires Valid()
      modifies this
      ensures Valid() && records == DeleteResult(old(records), order)
    {
      var i := IndexOf(records, order);
      if i >= 0 {
        DeleteRemovesExactlyOne(records, order);
        records := records[..i] + records[i + 1..];
      }
    }
  }
}
