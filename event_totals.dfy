/** `getTotalEvents`: the list of event types in the order they first occur,
    each with the number of records of that type. */
module EventTotals {
  import opened Types

  datatype EventTotal = EventTotal(eventType: string, total: nat)

  /** The event types of the records, in array order. */
  function EventTypes(records: seq<Record>): (r: seq<string>)
    ensures |r| == |records| && forall i :: 0 <= i < |records| ==> r[i] == records[i].data.eventType
  {
    seq(|records|, i requires 0 <= i < |records| => records[i].data.eventType)
  }

  /** The types an event list names, in its order. */
  function Names(events: seq<EventTotal>): (r: seq<string>)
    ensures |r| == |events| && forall i :: 0 <= i < |events| ==> r[i] == events[i].eventType
  {
    seq(|events|, i requires 0 <= i < |events| => events[i].eventType)
  }

  /** How many entries of `ts` equal `t`. */
  function Count(ts: seq<string>, t: string): (n: nat)
    ensures n <= |ts|
    ensures n == 0 <==> t !in ts
    ensures n == |ts| <==> forall k :: 0 <= k < |ts| ==> ts[k] == t
  {
    if ts == [] then 0
    else
      var prefix := ts[..|ts| - 1];
      assert ts == prefix + [ts[|ts| - 1]];
      assert forall k :: 0 <= k < |prefix| ==> prefix[k] == ts[k];
      Count(prefix, t) + (if ts[|ts| - 1] == t then 1 else 0)
  }

  /** The distinct entries of `ts`, each where it first occurs: the list built
      by pushing each type that `events.some(...)` does not find yet. */
  function FirstSeen(ts: seq<string>): (r: seq<string>)
    ensures |r| <= |ts| && forall t :: t in r ==> t in ts
  {
    if ts == [] then []
    else
      var p := FirstSeen(ts[..|ts| - 1]);
      assert forall t :: t in ts[..|ts| - 1] ==> t in ts;
      if ts[|ts| - 1] in p then p else p + [ts[|ts| - 1]]
  }

  /** The position of the first occurrence of `t` in `ts`. */
  function FirstIndex(ts: seq<string>, t: string): (k: nat)
    requires t in ts
    ensures k < |ts| && ts[k] == t && forall j :: 0 <= j < k ==> ts[j] != t
  {
    var prefix := ts[..|ts| - 1];
    if t in prefix then FirstIndex(prefix, t) else |ts| - 1
  }

  ghost predicate Distinct(ts: seq<string>) {
    forall i, j :: 0 <= i < j < |ts| ==> ts[i] != ts[j]
  }

  /** The first-seen list holds each type of `ts` once and no other. */
  lemma {:induction false} FirstSeenIsDistinctAndComplete(ts: seq<string>)
    ensures Distinct(FirstSeen(ts))
    ensures forall t :: t in FirstSeen(ts) <==> t in ts
  {
    if ts != [] {
      var prefix := ts[..|ts| - 1];
      FirstSeenIsDistinctAndComplete(prefix);
      assert ts == prefix + [ts[|ts| - 1]];
    }
  }

  /** The first-seen list is ordered by first occurrence. */
  lemma {:induction false} FirstSeenInOrder(ts: seq<string>)
    ensures forall t :: t in FirstSeen(ts) ==> t in ts
    ensures forall i, j :: 0 <= i < j < |FirstSeen(ts)| ==>
      FirstIndex(ts, FirstSeen(ts)[i]) < FirstIndex(ts, FirstSeen(ts)[j])
  {
    FirstSeenIsDistinctAndComplete(ts);
    if ts != [] {
      var prefix, last := ts[..|ts| - 1], ts[|ts| - 1];
      FirstSeenInOrder(prefix);
      FirstSeenIsDistinctAndComplete(prefix);
      var p, fs := FirstSeen(prefix), FirstSeen(ts);
      forall t | t in p ensures FirstIndex(ts, t) == FirstIndex(prefix, t) {
      }
      forall i, j | 0 <= i < j < |fs| ensures FirstIndex(ts, fs[i]) < FirstIndex(ts, fs[j]) {
        if j < |p| {
          assert fs[i] == p[i] && fs[j] == p[j];
        } else {
          assert fs[i] == p[i] && fs[j] == last && last !in prefix;
        }
      }
    }
  }

  /** A type that does not occur is counted 0 times. */
  lemma {:induction false} CountAbsent(ts: seq<string>, t: string)
    requires t !in ts
    ensures Count(ts, t) == 0
  {
    if ts != [] {
      CountAbsent(ts[..|ts| - 1], t);
    }
  }

  /** In a list without repetitions a member is counted once. */
  lemma {:induction false} CountDistinct(ts: seq<string>, t: string)
    requires Distinct(ts) && t in ts
    ensures Count(ts, t) == 1
  {
    var prefix := ts[..|ts| - 1];
    if ts[|ts| - 1] == t {
      assert t !in prefix;
      CountAbsent(prefix, t);
    } else {
      assert ts == prefix + [ts[|ts| - 1]];
      CountDistinct(prefix, t);
    }
  }

  /** The sum, over the listed keys, of how often each occurs in `ts`. */
  function SumCounts(keys: seq<string>, ts: seq<string>): nat
  {
    if keys == [] then 0
    else SumCounts(keys[..|keys| - 1], ts) + Count(ts, keys[|keys| - 1])
  }

  /** Appending one entry to `ts` adds, to the sum, the number of keys equal
      to it. */
  lemma {:induction false} SumCountsAppend(keys: seq<string>, ts: seq<string>, x: string)
    ensures SumCounts(keys, ts + [x]) == SumCounts(keys, ts) + Count(keys, x)
  {
    assert (ts + [x])[..|ts|] == ts;
    if keys != [] {
      SumCountsAppend(keys[..|keys| - 1], ts, x);
    }
  }

  /** Counting every entry of `ts` under distinct keys that cover it counts
      each entry once. */
  lemma {:induction false} SumCountsIsLength(keys: seq<string>, ts: seq<string>)
    requires Distinct(keys) && forall t :: t in ts ==> t in keys
    ensures SumCounts(keys, ts) == |ts|
  {
    if ts == [] {
      SumCountsOfEmpty(keys);
    } else {
      var prefix, last := ts[..|ts| - 1], ts[|ts| - 1];
      assert ts == prefix + [last];
      SumCountsIsLength(keys, prefix);
      SumCountsAppend(keys, prefix, last);
      CountDistinct(keys, last);
    }
  }

  lemma {:induction false} SumCountsOfEmpty(keys: seq<string>)
    ensures SumCounts(keys, []) == 0
  {
    if keys != [] {
      SumCountsOfEmpty(keys[..|keys| - 1]);
    }
  }

  /** The sum of the totals of an event list. */
  function Sum(events: seq<EventTotal>): nat
  {
    if events == [] then 0 else Sum(events[..|events| - 1]) + events[|events| - 1].total
  }

  /** The totals of a list whose entries count the types of `ts` sum to the
      same as SumCounts over its names. */
  lemma {:induction false} SumIsSumCounts(events: seq<EventTotal>, ts: seq<string>)
    requires forall j :: 0 <= j < |events| ==> events[j].total == Count(ts, events[j].eventType)
    ensures Sum(events) == SumCounts(Names(events), ts)
  {
    if events != [] {
      var prefix := events[..|events| - 1];
      assert Names(prefix) == Names(events)[..|events| - 1];
      SumIsSumCounts(prefix, ts);
    }
  }

  /** `getTotalEvents`: a first loop pushes `{type, total: 0}` for each type
      not yet listed; a second sets each total to the number of records of
      that type. */
  method TotalEvents(records: seq<Record>) returns (events: seq<EventTotal>)
    ensures Names(events) == FirstSeen(EventTypes(records))
    ensures forall j :: 0 <= j < |events| ==> events[j].total == Count(EventTypes(records), events[j].eventType)
    ensures Distinct(Names(events))
    ensures forall t :: t in Names(events) <==> t in EventTypes(records)
    ensures Sum(events) == |records|
  {
    ghost var ts := EventTypes(records);
    events := [];
    var i := 0;
    while i < |records|
      invariant 0 <= i <= |records|
      invariant Names(events) == FirstSeen(ts[..i])
      invariant forall j :: 0 <= j < |events| ==> events[j].total == 0
    {
      var t := records[i].data.eventType;
      assert ts[..i + 1][..i] == ts[..i] && ts[..i + 1][i] == t;
      if !(exists k :: 0 <= k < |events| && events[k].eventType == t) {
        events := events + [EventTotal(t, 0)];
      } else {
        assert t in Names(events);
      }
      i := i + 1;
    }
    assert ts[..i] == ts;
    var j := 0;
    while j < |events|
      invariant 0 <= j <= |events|
      invariant Names(events) == FirstSeen(ts)
      invariant forall k :: 0 <= k < j ==> events[k].total == Count(ts, events[k].eventType)
    {
      ghost var before := events;
      events := events[j := events[j].(total := Count(EventTypes(records), events[j].eventType))];
      assert Names(events) == Names(before);
      j := j + 1;
    }
    FirstSeenIsDistinctAndComplete(ts);
    SumIsSumCounts(events, ts);
    SumCountsIsLength(Names(events), ts);
  }
}
