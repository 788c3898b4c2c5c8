/** The statistics the editor derives from the current list of records:
    browser/DOM context counts, the delays between consecutive records, the
    total elapsed time and the longest input value. Times are integer
    milliseconds; the mean delay is kept as an exact quotient. */
module Analytics {
  import opened Types
  import opened Duration

  /** A record counts as a DOM event when `setup.nodeName` is present and
      non-empty (a truthy string); otherwise as a browser event. */
  predicate IsDom(c: Capture) {
    c.nodeName.Some? && c.nodeName.value != ""
  }

  /** The number of DOM events among the records. */
  function DomCount(records: seq<Record>): (n: nat)
    ensures n <= |records|
    ensures n == 0 <==> forall k :: 0 <= k < |records| ==> !IsDom(records[k].data)
    ensures n == |records| <==> forall k :: 0 <= k < |records| ==> IsDom(records[k].data)
  {
    if records == [] then 0
    else
      var prefix := records[..|records| - 1];
      assert forall k :: 0 <= k < |prefix| ==> prefix[k] == records[k];
      DomCount(prefix) + (if IsDom(records[|records| - 1].data) then 1 else 0)
  }

  /** The positions of the DOM events. */
  ghost function DomPositions(records: seq<Record>): set<nat> {
    set i: nat | i < |records| && IsDom(records[i].data)
  }

  /** DomCount counts exactly the records whose node name is present and
      non-empty. */
  lemma {:induction false} DomCountIsCardinality(records: seq<Record>)
    ensures DomCount(records) == |DomPositions(records)|
  {
    if records != [] {
      var prefix := records[..|records| - 1];
      DomCountIsCardinality(prefix);
      assert forall i :: 0 <= i < |prefix| ==> prefix[i] == records[i];
      if IsDom(records[|records| - 1].data) {
        assert DomPositions(records) == DomPositions(prefix) + {|prefix|};
      } else {
        assert DomPositions(records) == DomPositions(prefix);
      }
    }
  }

  /** `getTotalEventsByContext`: one pass that counts each record as a
      browser or a DOM event. */
  method TotalEventsByContext(records: seq<Record>) returns (browser: nat, dom: nat)
    ensures dom == DomCount(records) && dom == |DomPositions(records)|
    ensures browser + dom == |records|
  {
    browser, dom := 0, 0;
    var i := 0;
    while i < |records|
      invariant 0 <= i <= |records|
      invariant dom == DomCount(records[..i]) && browser + dom == i
    {
      assert records[..i + 1][..i] == records[..i];
      if !IsDom(records[i].data) {
        browser := browser + 1;
      } else {
        dom := dom + 1;
      }
      i := i + 1;
    }
    assert records[..i] == records;
    DomCountIsCardinality(records);
  }

  /** The delay from record k to record k + 1, in array order. */
  function Delay(records: seq<Record>, k: nat): (d: int)
    requires k + 1 < |records|
    ensures records[k].data.time + d == records[k + 1].data.time
  {
    Difference(records[k + 1].data.time, records[k].data.time)
  }

  /** The total elapsed time, from the first record to the last; no records
      or one record give 0. */
  function TotalTime(records: seq<Record>): (t: int)
    ensures |records| <= 1 ==> t == 0
    ensures |records| >= 1 ==> records[0].data.time + t == records[|records| - 1].data.time
  {
    if |records| <= 1 then 0
    else Difference(records[|records| - 1].data.time, records[0].data.time)
  }

  /** The sum of the delays between consecutive records. */
  function SumDelays(records: seq<Record>): int
  {
    if |records| <= 1 then 0
    else SumDelays(records[..|records| - 1]) + Delay(records, |records| - 2)
  }

  /** The total time is the sum of the consecutive delays (they telescope). */
  lemma {:induction false} TotalTimeIsSumOfDelays(records: seq<Record>)
    ensures TotalTime(records) == SumDelays(records)
  {
    if |records| > 1 {
      var prefix := records[..|records| - 1];
      TotalTimeIsSumOfDelays(prefix);
      assert prefix[0] == records[0] && prefix[|prefix| - 1] == records[|records| - 2];
    }
  }

  /** Bounds on every delay bound their sum: n records have n - 1 delays. */
  lemma {:induction false} SumDelaysBounds(records: seq<Record>, lo: int, hi: int)
    requires |records| >= 1
    requires forall k :: 0 <= k < |records| - 1 ==> lo <= Delay(records, k) <= hi
    ensures (|records| - 1) * lo <= SumDelays(records) <= (|records| - 1) * hi
  {
    if |records| > 1 {
      var prefix := records[..|records| - 1];
      forall k | 0 <= k < |prefix| - 1 ensures lo <= Delay(prefix, k) <= hi {
        assert Delay(prefix, k) == Delay(records, k);
      }
      SumDelaysBounds(prefix, lo, hi);
    }
  }

  /** The mean that getTimeDelays shows divides the total time by the number
      of records, not of delays: n times the mean lies between n - 1 times
      the smallest delay and n - 1 times the largest. */
  lemma MeanBetweenScaledBounds(records: seq<Record>, lo: int, hi: int)
    requires |records| >= 2
    requires forall k :: 0 <= k < |records| - 1 ==> lo <= Delay(records, k) <= hi
    ensures var n := |records|;
      (n - 1) * lo <= TotalTime(records) <= (n - 1) * hi
  {
    TotalTimeIsSumOfDelays(records);
    SumDelaysBounds(records, lo, hi);
  }

  /** The raw delay statistics: the smallest and largest consecutive delay,
      and the mean, total time divided by the number of records. */
  datatype Delays = Delays(min: int, max: int, mean: real)

  /** `getTimeDelays`, on raw milliseconds: fewer than two records have no
      delay (the source throws reading `records[1]`); otherwise min and max
      start at the first delay and a loop updates them over the others. */
  method TimeDelays(records: seq<Record>) returns (d: Option<Delays>)
    ensures d.None? <==> |records| < 2
    ensures d.Some? ==> forall k :: 0 <= k < |records| - 1 ==> d.value.min <= Delay(records, k) <= d.value.max
    ensures d.Some? ==> exists k :: 0 <= k < |records| - 1 && Delay(records, k) == d.value.min
    ensures d.Some? ==> exists k :: 0 <= k < |records| - 1 && Delay(records, k) == d.value.max
    ensures d.Some? ==> d.value.mean * (|records| as real) == TotalTime(records) as real
  {
    if |records| < 2 {
      return None;
    }
    var minDelay := Difference(records[1].data.time, records[0].data.time);
    var maxDelay := minDelay;
    var meanDelay := TotalTime(records) as real / |records| as real;
    ghost var kMin, kMax := 0, 0;
    var i := 1;
    while i < |records| - 1
      invariant 1 <= i <= |records| - 1
      invariant forall k :: 0 <= k < i ==> minDelay <= Delay(records, k) <= maxDelay
      invariant 0 <= kMin < i && Delay(records, kMin) == minDelay
      invariant 0 <= kMax < i && Delay(records, kMax) == maxDelay
    {
      var difference := Difference(records[i + 1].data.time, records[i].data.time);
      if difference < minDelay {
        minDelay, kMin := difference, i;
      } else if difference > maxDelay {
        maxDelay, kMax := difference, i;
      }
      i := i + 1;
    }
    d := Some(Delays(minDelay, maxDelay, meanDelay));
  }

  /** The three delays as getTimeDelays returns them: `mm:ss`, the mean's
      fraction of a millisecond dropped toward zero. */
  datatype DelayText = DelayText(min: string, max: string, mean: string)

  function DelaysShown(d: Delays): (r: DelayText)
    ensures InDateRange(d.min) ==> |r.min| == 5
    ensures InDateRange(d.max) ==> |r.max| == 5
    ensures InDateRange(TruncateMs(d.mean)) ==> |r.mean| == 5
  {
    DelayText(FormatDuration(d.min, Minutes), FormatDuration(d.max, Minutes),
              FormatDuration(TruncateMs(d.mean), Minutes))
  }

  predicate IsInput(c: Capture) {
    c.eventType == "input"
  }

  /** The longest input sequence: the greatest `setup.value.length` (in
      UTF-16 code units) over the 'input' records, and 0 when there is none. */
  function LongestInput(records: seq<Record>): (n: nat)
    ensures forall k :: 0 <= k < |records| && IsInput(records[k].data) ==> Utf16Length(records[k].data.value) <= n
    ensures (exists k :: 0 <= k < |records| && IsInput(records[k].data)) ==>
      exists k :: 0 <= k < |records| && IsInput(records[k].data) && Utf16Length(records[k].data.value) == n
    ensures (forall k :: 0 <= k < |records| ==> !IsInput(records[k].data)) ==> n == 0
  {
    if records == [] then 0
    else
      var m := LongestInput(records[1..]);
      var here := records[0].data;
      assert forall k :: 1 <= k < |records| ==> records[k] == records[1..][k - 1];
      var len := Utf16Length(here.value);
      if IsInput(here) && len > m then len else
        assert IsInput(here) && !(exists k :: 1 <= k < |records| && IsInput(records[k].data)) ==> len == 0;
        m
  }

  /** `records.filter(record => record.data.event.type === 'input')`. */
  function Inputs(records: seq<Record>): (r: seq<Record>)
    ensures forall x :: x in r <==> x in records && IsInput(x.data)
  {
    if records == [] then []
    else (if IsInput(records[0].data) then [records[0]] else []) + Inputs(records[1..])
  }

  /** `filter` of a concatenation is the concatenation of the filters, so
      together with InputsOfOne it fixes the kept records, their order and
      their multiplicity. */
  lemma {:induction false} InputsAppend(a: seq<Record>, b: seq<Record>)
    ensures Inputs(a + b) == Inputs(a) + Inputs(b)
  {
    if a == [] {
      assert a + b == b;
    } else {
      assert (a + b)[0] == a[0] && (a + b)[1..] == a[1..] + b;
      InputsAppend(a[1..], b);
    }
  }

  /** `filter` on one record keeps it exactly when it is an input record. */
  lemma InputsOfOne(x: Record)
    ensures Inputs([x]) == if IsInput(x.data) then [x] else []
  {
    assert [x][1..] == [];
  }

  /** The first record the filter keeps is the first input record in array
      order. */
  lemma {:induction false} FirstInputIsFirst(records: seq<Record>)
    requires Inputs(records) != []
    ensures exists i :: 0 <= i < |records| && Inputs(records)[0] == records[i] &&
                        IsInput(records[i].data) && forall j :: 0 <= j < i ==> !IsInput(records[j].data)
  {
    if !IsInput(records[0].data) {
      FirstInputIsFirst(records[1..]);
      var i :| 0 <= i < |records[1..]| && Inputs(records[1..])[0] == records[1..][i] &&
        IsInput(records[1..][i].data) && forall j :: 0 <= j < i ==> !IsInput(records[1..][j].data);
      assert Inputs(records) == Inputs(records[1..]);
      forall j | 0 <= j < i + 1 ensures !IsInput(records[j].data) {
        if j > 0 { assert records[j] == records[1..][j - 1]; }
      }
      assert records[i + 1] == records[1..][i];
    } else {
      assert Inputs(records)[0] == records[0];
    }
  }

  /** A JavaScript value the seedless `reduce` calls hold: a record object, a
      number, or a moment Duration of some milliseconds. */
  datatype JsValue = RecordValue(rec: Record) | NumberValue(n: int) | DurationValue(ms: int)

  /** One step of getLongestSequence's reducer, `accumulator > length ?
      accumulator : length`; a record object compared with a number converts
      to NaN, so the comparison is false. */
  function LongestStep(acc: JsValue, length: nat): (r: JsValue)
    ensures r.NumberValue? && r.n >= length
    ensures acc.NumberValue? ==> r.n >= acc.n && (r.n == acc.n || r.n == length)
    ensures !acc.NumberValue? ==> r.n == length
  {
    match acc
    case NumberValue(a) => if a > length then acc else NumberValue(length)
    case _ => NumberValue(length)
  }

  /** The reducer applied to each remaining input record in turn. */
  function LongestFold(acc: JsValue, rest: seq<Record>): (r: JsValue)
    ensures rest == [] ==> r == acc
    ensures rest != [] ==> r.NumberValue?
    decreases |rest|
  {
    if rest == [] then acc else LongestFold(LongestStep(acc, Utf16Length(rest[0].data.value)), rest[1..])
  }

  /** `getLongestSequence` as written: `reduce` without a seed throws on no
      input records, returns the record itself on one, and otherwise starts
      from the first input record. */
  function LongestAsWritten(records: seq<Record>): (r: Outcome<JsValue>)
    ensures r == TypeError <==> Inputs(records) == []
    ensures |Inputs(records)| == 1 ==> r == Done(RecordValue(Inputs(records)[0]))
  {
    var ins := Inputs(records);
    if ins == [] then TypeError else Done(LongestFold(RecordValue(ins[0]), ins[1..]))
  }

  /** Folding from a number gives the larger of that number and the longest
      of the rest. */
  lemma {:induction false} LongestFoldIsMax(m: nat, rest: seq<Record>)
    requires forall x :: x in rest ==> IsInput(x.data)
    ensures LongestFold(NumberValue(m), rest) ==
      NumberValue(if m > LongestInput(rest) then m else LongestInput(rest))
    decreases |rest|
  {
    if rest != [] {
      var len := Utf16Length(rest[0].data.value);
      assert rest[0] in rest;
      assert forall x :: x in rest[1..] ==> x in rest;
      LongestFoldIsMax(if m > len then m else len, rest[1..]);
    }
  }

  /** With two or more input records the source's result is the longest of
      them all but the first: the first one's length is never compared. */
  lemma LongestAsWrittenSkipsFirst(records: seq<Record>)
    requires |Inputs(records)| >= 2
    ensures LongestAsWritten(records) == Done(NumberValue(LongestInput(Inputs(records)[1..])))
  {
    var ins := Inputs(records);
    var len := Utf16Length(ins[1].data.value);
    assert LongestAsWritten(records) == Done(LongestFold(RecordValue(ins[0]), ins[1..]));
    assert ins[1..][0] == ins[1] && ins[1..][1..] == ins[2..];
    assert LongestFold(RecordValue(ins[0]), ins[1..]) == LongestFold(NumberValue(len), ins[2..]);
    assert forall x :: x in ins[2..] ==> IsInput(x.data) by {
      forall x | x in ins[2..] ensures IsInput(x.data) { assert x in ins; }
    }
    LongestFoldIsMax(len, ins[2..]);
  }

  /** Filtering the input records first does not change the longest input. */
  lemma {:induction false} LongestOfInputs(records: seq<Record>)
    ensures LongestInput(Inputs(records)) == LongestInput(records)
  {
    if records != [] {
      var rest := Inputs(records[1..]);
      LongestOfInputs(records[1..]);
      if IsInput(records[0].data) {
        var ins := [records[0]] + rest;
        assert Inputs(records) == ins;
        assert ins[0] == records[0] && ins[1..] == rest;
      } else {
        assert Inputs(records) == rest;
      }
    }
  }

  /** The source agrees with the longest input exactly when the first input
      record is not strictly longer than every later one. */
  lemma LongestAsWrittenAgreesIff(records: seq<Record>)
    requires |Inputs(records)| >= 2
    ensures LongestAsWritten(records) == Done(NumberValue(LongestInput(records))) <==>
      Utf16Length(Inputs(records)[0].data.value) <= LongestInput(Inputs(records)[1..])
  {
    var ins := Inputs(records);
    LongestAsWrittenSkipsFirst(records);
    LongestOfInputs(records);
    assert ins[0] in ins;
  }

  /** `moment(accumulator)`: the accumulator of getTotalTime's reducer is the
      first record or a Duration, objects that are neither a moment, a Date,
      a string, an array nor a number; moment reads no date fields from such
      an object and gives the start of the current local day. */
  function MomentOf(acc: JsValue, startOfToday: int): int
    requires acc.RecordValue? || acc.DurationValue?
  {
    startOfToday
  }

  /** One step of getTotalTime's reducer,
      `moment.duration(moment(value.data.time).diff(moment(accumulator)))`. */
  function TimeFold(acc: JsValue, rest: seq<Record>, startOfToday: int): (r: JsValue)
    requires acc.RecordValue? || acc.DurationValue?
    ensures rest == [] ==> r == acc
    ensures rest != [] ==> r.DurationValue?
    decreases |rest|
  {
    if rest == [] then acc
    else TimeFold(DurationValue(Difference(rest[0].data.time, MomentOf(acc, startOfToday))), rest[1..], startOfToday)
  }

  /** `getTotalTime().asMilliseconds()` as written: `reduce` without a seed
      throws on no records, returns the record itself on one (which has no
      `asMilliseconds`, so the call throws), and otherwise starts from the
      first record object. */
  function TotalTimeAsWritten(records: seq<Record>, startOfToday: int): (r: Outcome<int>)
    ensures |records| <= 1 ==> r == TypeError
  {
    if records == [] then TypeError
    else
      match TimeFold(RecordValue(records[0]), records[1..], startOfToday)
      case DurationValue(ms) => Done(ms)
      case _ => TypeError
  }

  /** Every step measures from the start of today, so with two or more
      records the source's total is the last record's time since midnight. */
  lemma {:induction false} TimeFoldFromToday(acc: JsValue, rest: seq<Record>, startOfToday: int)
    requires rest != [] && (acc.RecordValue? || acc.DurationValue?)
    ensures TimeFold(acc, rest, startOfToday) == DurationValue(rest[|rest| - 1].data.time - startOfToday)
    decreases |rest|
  {
    if |rest| > 1 {
      TimeFoldFromToday(DurationValue(rest[0].data.time - startOfToday), rest[1..], startOfToday);
    }
  }

  /** What the source's total time is: a TypeError below two records, and
      otherwise the time of the last record since the start of today; it
      equals the elapsed time exactly when the first record was captured at
      the start of today. */
  lemma TotalTimeAsWrittenValue(records: seq<Record>, startOfToday: int)
    ensures |records| < 2 <==> TotalTimeAsWritten(records, startOfToday) == TypeError
    ensures |records| >= 2 ==>
      TotalTimeAsWritten(records, startOfToday) == Done(records[|records| - 1].data.time - startOfToday)
    ensures TotalTimeAsWritten(records, startOfToday) == Done(TotalTime(records)) <==>
      |records| >= 2 && records[0].data.time == startOfToday
  {
    if |records| >= 2 {
      TimeFoldFromToday(RecordValue(records[0]), records[1..], startOfToday);
    }
  }
}
