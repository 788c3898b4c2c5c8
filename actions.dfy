/** `handleAction` and `setNewRecords` as the source writes them: a move
    adds or subtracts 1 from the two ranks involved and re-sorts, its guard
    reads the neighbour without a bounds check, and a delete splices at the
    index `findIndex` returns, -1 included. The lemmas compare it with the
    store of module Store. */
module Actions {
  import opened Types
  import opened StableSort
  import opened Store

  /** The action names the editor passes: 'up', 'down', 'delete', or any other
      string. */
  datatype Action = Up | Down | Delete | Other

  /** `setNewRecords`: finds the record of rank `order`; for 'up' it checks
      `newRecords[index - 1].order >= 0`, then lowers the record's rank by 1
      and raises the previous record's by 1; for 'down' it checks
      `newRecords[index + 1].order <= newRecords.length`, then raises the
      record's rank by 1 and lowers the next record's by 1. Reading the
      neighbour of the first (up) or last (down) record throws. */
  function SetNewRecords(up: bool, order: int, s: seq<Record>): (r: Outcome<seq<Record>>)
    ensures r.TypeError? <==> IndexOf(s, order) >= 0 && IndexOf(s, order) == (if up then 0 else |s| - 1)
    ensures r.Done? ==> |r.value| == |s| && Payloads(r.value) == Payloads(s)
    ensures IndexOf(s, order) == -1 ==> r == Done(s)
  {
    var i := IndexOf(s, order);
    if i == -1 then Done(s)
    else if up then
      if i == 0 then TypeError
      else if s[i - 1].order >= 0 then
        Done(s[i := s[i].(order := s[i].order - 1)][i - 1 := s[i - 1].(order := s[i - 1].order + 1)])
      else Done(s)
    else
      if i == |s| - 1 then TypeError
      else if s[i + 1].order <= |s| then
        Done(s[i := s[i].(order := s[i].order + 1)][i + 1 := s[i + 1].(order := s[i + 1].order - 1)])
      else Done(s)
  }

  /** `splice(start, 1)` for a start of -1 or an index: -1 counts from the
      end, so it removes the last element (and nothing from an empty list). */
  function SpliceOne(s: seq<Record>, start: int): (r: seq<Record>)
    requires -1 <= start < |s|
    ensures |r| == if s == [] then 0 else |s| - 1
    ensures 0 <= start ==> r == s[..start] + s[start + 1..]
    ensures start == -1 && s != [] ==> r == s[..|s| - 1]
  {
    if start == -1 then (if s == [] then s else s[..|s| - 1])
    else s[..start] + s[start + 1..]
  }

  /** `handleAction`: the new list of records, or the TypeError the call
      throws (in which case the list is not replaced). Any other action name
      replaces the list with the empty one, because `newRecords` starts as
      `[]` and the `default` branch leaves it so. */
  function HandleAction(action: Action, order: int, s: seq<Record>): (r: Outcome<seq<Record>>)
    ensures action == Other ==> r == Done([])
    ensures action == Delete ==> r.Done? && |r.value| == (if s == [] then 0 else |s| - 1)
    ensures (action == Up || action == Down) ==>
      (r.TypeError? <==> SetNewRecords(action == Up, order, s).TypeError?) &&
      (r.Done? ==> Sorted(r.value) && multiset(r.value) == multiset(SetNewRecords(action == Up, order, s).value) &&
                   forall k :: WithOrder(r.value, k) == WithOrder(SetNewRecords(action == Up, order, s).value, k))
  {
    match action
    case Up | Down =>
      (match SetNewRecords(action == Up, order, s)
       case TypeError => TypeError
       case Done(t) => SortPermutes(t); SortStableAll(t); Done(SortByOrder(t)))
    case Delete => Done(SpliceOne(s, IndexOf(s, order)))
    case Other => Done([])
  }

  /** A move the rank update accepts ends in the re-sort of the updated list. */
  lemma MoveIsResort(up: bool, order: int, s: seq<Record>, t: seq<Record>)
    requires SetNewRecords(up, order, s) == Done(t)
    ensures HandleAction(if up then Up else Down, order, s) == Done(SortByOrder(t))
  {
  }

  /** The edits the list offers for the record at position i
      (src/components/RecordView.js shows 'up' only from the second row and
      'down' only up to the last-but-one). */
  predicate Offered(action: Action, s: seq<Record>, i: nat) {
    i < |s| &&
    match action
    case Up => 0 < i
    case Down => i < |s| - 1
    case Delete => true
    case Other => false
  }

  /** The store's result for an action. */
  function StoreResult(action: Action, order: int, s: seq<Record>): (r: seq<Record>)
    ensures action == Other ==> r == s
    ensures |r| == (if action == Delete && IndexOf(s, order) >= 0 then |s| - 1 else |s|)
  {
    match action
    case Up => MoveUpResult(s, order)
    case Down => MoveDownResult(s, order)
    case Delete => DeleteResult(s, order)
    case Other => s
  }

  /** +1/-1 on two adjacent ranks that differ by exactly 1 is an exchange of
      ranks, and the re-sort then exchanges the two payloads. */
  lemma AdjacentBumpIsSwap(s: seq<Record>, j: nat)
    requires StrictlySorted(s) && j + 1 < |s| && s[j + 1].order == s[j].order + 1
    ensures SortByOrder(s[j + 1 := s[j + 1].(order := s[j + 1].order - 1)][j := s[j].(order := s[j].order + 1)])
      == SwapPayloads(s, j)
  {
    assert s[j + 1 := s[j + 1].(order := s[j + 1].order - 1)][j := s[j].(order := s[j].order + 1)]
      == Exchange(s, j);
    ExchangeThenSort(s, j);
  }

  /** While ranks are dense, 'up' on any record but the first does in the
      source what the store does. */
  lemma UpAgreesWhileDense(s: seq<Record>, i: nat)
    requires Dense(s) && 0 < i < |s|
    ensures HandleAction(Up, s[i].order, s) == Done(MoveUpResult(s, s[i].order))
  {
    assert StrictlySorted(s);
    IndexOfRank(s, i);
    var t := s[i := s[i].(order := s[i].order - 1)][i - 1 := s[i - 1].(order := s[i - 1].order + 1)];
    assert SetNewRecords(true, s[i].order, s) == Done(t);
    MoveIsResort(true, s[i].order, s, t);
    AdjacentBumpIsSwap(s, i - 1);
    assert t == s[i := s[i].(order := s[i].order - 1)][i - 1 := s[i - 1].(order := s[i - 1].order + 1)];
  }

  /** While ranks are dense, 'down' on any record but the last does in the
      source what the store does. */
  lemma DownAgreesWhileDense(s: seq<Record>, i: nat)
    requires Dense(s) && i + 1 < |s|
    ensures HandleAction(Down, s[i].order, s) == Done(MoveDownResult(s, s[i].order))
  {
    assert StrictlySorted(s);
    IndexOfRank(s, i);
    var t := s[i := s[i].(order := s[i].order + 1)][i + 1 := s[i + 1].(order := s[i + 1].order - 1)];
    assert SetNewRecords(false, s[i].order, s) == Done(t);
    MoveIsResort(false, s[i].order, s, t);
    AdjacentBumpIsSwap(s, i);
    assert t == s[i + 1 := s[i + 1].(order := s[i + 1].order - 1)][i := s[i].(order := s[i].order + 1)];
  }

  /** While ranks are dense (after a load and any number of moves), every
      edit the list offers does in the source exactly what the store does. */
  lemma AgreesWhileDense(action: Action, s: seq<Record>, i: nat)
    requires Dense(s) && Offered(action, s, i)
    ensures HandleAction(action, s[i].order, s) == Done(StoreResult(action, s[i].order, s))
  {
    match action
    case Up => UpAgreesWhileDense(s, i);
    case Down => DownAgreesWhileDense(s, i);
    case Delete => DeletePresentAgrees(s[i].order, s);
  }

  /** A move naming a rank no record holds leaves the list as it was, apart
      from the re-sort, which changes nothing on a sorted list; so does the
      store. */
  lemma AbsentRankMoveIsResortOnly(up: bool, order: int, s: seq<Record>)
    requires IndexOf(s, order) == -1
    ensures HandleAction(if up then Up else Down, order, s) == Done(SortByOrder(s))
    ensures Sorted(s) ==> HandleAction(if up then Up else Down, order, s) == Done(s)
    ensures MoveUpResult(s, order) == s && MoveDownResult(s, order) == s
  {
    if Sorted(s) { SortOfSorted(s); }
  }

  /** 'up' on the first record and 'down' on the last throw in the source
      (the list hides those buttons); the store leaves the list unchanged. */
  lemma BoundaryMovesThrow(s: seq<Record>)
    requires StrictlySorted(s) && s != []
    ensures HandleAction(Up, s[0].order, s) == TypeError && MoveUpResult(s, s[0].order) == s
    ensures HandleAction(Down, s[|s| - 1].order, s) == TypeError && MoveDownResult(s, s[|s| - 1].order) == s
  {
    IndexOfRank(s, 0);
    IndexOfRank(s, |s| - 1);
  }

  /** Deleting a rank that is held: the source and the store agree on any
      list. */
  lemma DeletePresentAgrees(order: int, s: seq<Record>)
    requires IndexOf(s, order) >= 0
    ensures HandleAction(Delete, order, s) == Done(DeleteResult(s, order))
  {
  }

  /** Deleting a rank nobody holds: `findIndex` gives -1 and `splice(-1, 1)`
      removes the last record; the store removes nothing. */
  lemma DeleteAbsentDropsLast(order: int, s: seq<Record>)
    requires IndexOf(s, order) == -1 && s != []
    ensures HandleAction(Delete, order, s) == Done(s[..|s| - 1])
    ensures DeleteResult(s, order) == s && HandleAction(Delete, order, s) != Done(DeleteResult(s, order))
  {
    assert |s[..|s| - 1]| != |s|;
  }

  /** Once a delete has left a gap, 'up' on a record whose predecessor's rank
      is at least 2 lower changes the two ranks but moves nothing: the bumped
      list is still sorted, so both payloads stay where they were. */
  lemma UpAcrossGapDoesNotMove(s: seq<Record>, i: nat)
    requires StrictlySorted(s) && 0 < i < |s| && s[i - 1].order >= 0
    requires s[i].order - s[i - 1].order >= 2
    ensures var t := s[i := s[i].(order := s[i].order - 1)][i - 1 := s[i - 1].(order := s[i - 1].order + 1)];
      HandleAction(Up, s[i].order, s) == Done(t) && Payloads(t) == Payloads(s)
  {
    IndexOfRank(s, i);
    var t := s[i := s[i].(order := s[i].order - 1)][i - 1 := s[i - 1].(order := s[i - 1].order + 1)];
    assert SetNewRecords(true, s[i].order, s) == Done(t);
    MoveIsResort(true, s[i].order, s, t);
    forall p | 0 < p < |t| ensures t[p - 1].order <= t[p].order {
      assert s[p - 1].order < s[p].order;
    }
    SortOfSorted(t);
  }

  /** Once a delete has left a gap, 'down' on a record whose successor's rank
      is at least 2 higher changes the two ranks but moves nothing. */
  lemma DownAcrossGapDoesNotMove(s: seq<Record>, i: nat)
    requires StrictlySorted(s) && i + 1 < |s| && s[i + 1].order <= |s|
    requires s[i + 1].order - s[i].order >= 2
    ensures var t := s[i := s[i].(order := s[i].order + 1)][i + 1 := s[i + 1].(order := s[i + 1].order - 1)];
      HandleAction(Down, s[i].order, s) == Done(t) && Payloads(t) == Payloads(s)
  {
    IndexOfRank(s, i);
    var t := s[i := s[i].(order := s[i].order + 1)][i + 1 := s[i + 1].(order := s[i + 1].order - 1)];
    assert SetNewRecords(false, s[i].order, s) == Done(t);
    MoveIsResort(false, s[i].order, s, t);
    forall p | 0 < p < |t| ensures t[p - 1].order <= t[p].order {
      assert s[p - 1].order < s[p].order;
    }
    SortOfSorted(t);
  }

  /** The 'down' guard compares the next record's rank with the number of
      records; once deletes have left ranks above that number, a move the
      list offers is silently refused. */
  lemma DownGuardRefuses(s: seq<Record>, i: nat)
    requires StrictlySorted(s) && i + 1 < |s| && s[i + 1].order > |s|
    ensures HandleAction(Down, s[i].order, s) == Done(s)
  {
    IndexOfRank(s, i);
    assert SetNewRecords(false, s[i].order, s) == Done(s);
    MoveIsResort(false, s[i].order, s, s);
    SameOrdersSorted(s, s);
    SortOfSorted(s);
  }

  /** Load three captures and delete rank 1: ranks 0 and 2 remain. */
  lemma GapAfterDelete(a: Capture, b: Capture, c: Capture)
    ensures DeleteResult(Wrap([a, b, c]), 1) == [Record(0, a), Record(2, c)]
  {
    var w := Wrap([a, b, c]);
    assert w == [Record(0, a), Record(1, b), Record(2, c)];
    assert IndexOf(w, 1) == 1;
    assert w[..1] + w[2..] == [Record(0, a), Record(2, c)];
  }

  /** On those ranks 0 and 2, moving the last record up: the source gives
      both records rank 1 and keeps them in place. */
  lemma GapExample(a: Capture, c: Capture)
    ensures HandleAction(Up, 2, [Record(0, a), Record(2, c)]) == Done([Record(1, a), Record(1, c)])
  {
    var s := [Record(0, a), Record(2, c)];
    assert StrictlySorted(s);
    UpAcrossGapDoesNotMove(s, 1);
    assert s[1 := s[1].(order := s[1].order - 1)][0 := s[0].(order := s[0].order + 1)]
      == [Record(1, a), Record(1, c)];
  }

  /** On the same ranks the store exchanges the two records. */
  lemma GapExampleStore(a: Capture, c: Capture)
    ensures MoveUpResult([Record(0, a), Record(2, c)], 2) == [Record(0, c), Record(2, a)]
  {
    var s := [Record(0, a), Record(2, c)];
    assert StrictlySorted(s);
    MoveUpSwaps(s, 1);
    var r := MoveUpResult(s, 2);
    assert r == [r[0], r[1]];
  }

  /** Deleting the rank of the first record drops that record. */
  lemma DeleteHead(s: seq<Record>)
    requires s != []
    ensures DeleteResult(s, s[0].order) == s[1..]
  {
    assert IndexOf(s, s[0].order) == 0;
    assert s[..0] + s[1..] == s[1..];
  }

  /** Load four captures and delete ranks 0 and 1: ranks 2 and 3 remain. */
  lemma HighRanksAfterDeletes(a: Capture, b: Capture, c: Capture, d: Capture)
    ensures DeleteResult(DeleteResult(Wrap([a, b, c, d]), 0), 1) == [Record(2, c), Record(3, d)]
  {
    var w := Wrap([a, b, c, d]);
    assert w == [Record(0, a), Record(1, b), Record(2, c), Record(3, d)];
    DeleteHead(w);
    DeleteHead(w[1..]);
    assert w[1..][1..] == [Record(2, c), Record(3, d)];
  }

  /** On those ranks 2 and 3, 'down' on the first record is offered by the
      list but refused by the source; the store exchanges the two. */
  lemma DownRefusedExample(c: Capture, d: Capture)
    ensures HandleAction(Down, 2, [Record(2, c), Record(3, d)]) == Done([Record(2, c), Record(3, d)])
    ensures MoveDownResult([Record(2, c), Record(3, d)], 2) == [Record(2, d), Record(3, c)]
  {
    var s := [Record(2, c), Record(3, d)];
    assert StrictlySorted(s);
    DownGuardRefuses(s, 0);
    MoveDownSwaps(s, 0);
  }
}
