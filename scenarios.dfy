/** Concrete recordings: a three-event session, and the inputs on which the
    source's seedless reductions go wrong. */
module Scenarios {
  import opened Types
  import opened Store
  import opened Duration
  import opened EventTotals
  import opened Analytics

  /** Three captures: a click, an input of "hello" one second later, and a
      click two seconds after that, loaded into ranks 0..2. */
  function Session(t0: int): seq<Record> {
    Wrap([Capture("click", None, "", t0),
          Capture("input", Some("INPUT"), "hello", t0 + 1000),
          Capture("click", Some("BUTTON"), "", t0 + 3000)])
  }

  lemma SessionRecords(t0: int)
    ensures Session(t0) == [Record(0, Capture("click", None, "", t0)),
                            Record(1, Capture("input", Some("INPUT"), "hello", t0 + 1000)),
                            Record(2, Capture("click", Some("BUTTON"), "", t0 + 3000))]
  {
  }

  /** Types a, b, a: a is listed first with 2 events, then b with 1. */
  lemma TotalsOfTwoKinds(a: string, b: string)
    requires a != b
    ensures FirstSeen([a, b, a]) == [a, b]
    ensures Count([a, b, a], a) == 2 && Count([a, b, a], b) == 1
  {
    var t1, t2, t3 := [a], [a, b], [a, b, a];
    assert t3[..2] == t2 && t2[..1] == t1 && t1[..0] == [];
    assert FirstSeen(t1) == [a];
    assert FirstSeen(t2) == [a, b];
    assert Count(t1, a) == 1 && Count(t1, b) == 0;
    assert Count(t2, a) == 1 && Count(t2, b) == 1;
  }

  /** Event totals of the session: click 2, input 1, in that order. */
  lemma SessionTotals(t0: int)
    ensures FirstSeen(EventTypes(Session(t0))) == ["click", "input"]
    ensures Count(EventTypes(Session(t0)), "click") == 2 && Count(EventTypes(Session(t0)), "input") == 1
  {
    SessionRecords(t0);
    assert "click" != "input" by { assert "click"[0] != "input"[0]; }
    assert EventTypes(Session(t0)) == ["click", "input", "click"];
    TotalsOfTwoKinds("click", "input");
  }

  /** The session has two DOM events: the second and third records. */
  lemma SessionDomCount(t0: int)
    ensures DomCount(Session(t0)) == 2
  {
    var s := Session(t0);
    SessionRecords(t0);
    assert s[..2][..1] == s[..1] && s[..1][..0] == [];
    assert DomCount(s[..1]) == 0;
    assert DomCount(s[..2]) == 1;
  }

  /** The session's only input record holds "hello". */
  lemma SessionLongestInput(t0: int)
    ensures LongestInput(Session(t0)) == 5
  {
    var s := Session(t0);
    SessionRecords(t0);
    assert !IsInput(s[0].data) && !IsInput(s[2].data) by { assert "click"[0] != "input"[0]; }
    assert s[1..][1..] == s[2..] && s[2..][1..] == [];
    assert LongestInput(s[2..]) == 0;
    assert Utf16Length("hello") == 5;
    assert LongestInput(s[1..]) == 5;
  }

  /** Context, longest input and time of the session. */
  lemma SessionStats(t0: int)
    ensures DomCount(Session(t0)) == 2
    ensures LongestInput(Session(t0)) == 5
    ensures TotalTime(Session(t0)) == 3000
    ensures Delay(Session(t0), 0) == 1000 && Delay(Session(t0), 1) == 2000
    ensures TotalTime(Session(t0)) as real / 3.0 == 1000.0
  {
    SessionRecords(t0);
    SessionDomCount(t0);
    SessionLongestInput(t0);
  }

  /** The session's displayed total time. */
  lemma SessionTotalShown()
    ensures FormatDuration(3000, Hours) == "12:00:03"
  {
    assert Pad2(12) == "12" && Pad2(0) == "00" && Pad2(3) == "03";
  }

  /** The session's displayed delays: min 1 s, max 2 s, mean 1 s. */
  lemma SessionDelaysShown()
    ensures DelaysShown(Delays(1000, 2000, 1000.0)) == DelayText("00:01", "00:02", "00:01")
  {
    assert TruncateMs(1000.0) == 1000;
    assert Pad2(0) == "00" && Pad2(1) == "01" && Pad2(2) == "02";
    assert FormatDuration(1000, Minutes) == "00:01";
    assert FormatDuration(2000, Minutes) == "00:02";
  }

  /** With one input record the source's getLongestSequence returns the
      record object itself instead of its length 5. */
  lemma SessionLongestAsWritten(t0: int)
    ensures LongestAsWritten(Session(t0)) == Done(RecordValue(Session(t0)[1]))
  {
    var s := Session(t0);
    SessionRecords(t0);
    assert !IsInput(s[0].data) && !IsInput(s[2].data) by { assert "click"[0] != "input"[0]; }
    assert s[1..][1..] == s[2..] && s[2..][1..] == [];
    assert Inputs(s[2..]) == [];
    assert Inputs(s[1..]) == [s[1]];
    assert Inputs(s) == [s[1]];
  }

  /** Two input records of lengths 5 and 3: the source reports 3. */
  lemma LongestAsWrittenDropsFirst()
    ensures var s := [Record(0, Capture("input", Some("INPUT"), "hello", 0)),
                      Record(1, Capture("input", Some("INPUT"), "abc", 500))];
      LongestAsWritten(s) == Done(NumberValue(3)) && LongestInput(s) == 5
  {
    var s := [Record(0, Capture("input", Some("INPUT"), "hello", 0)),
              Record(1, Capture("input", Some("INPUT"), "abc", 500))];
    assert s[1..][1..] == [];
    assert Inputs(s) == s;
    assert Utf16Length("hello") == 5 && Utf16Length("abc") == 3;
  }

  /** A character outside the Basic Multilingual Plane counts as two code
      units, as `length` counts them: input values "a" then "\U{1F600}" give
      2, which is also the longest input. */
  lemma AstralCountsTwice()
    ensures var s := [Record(0, Capture("input", Some("INPUT"), "a", 0)),
                      Record(1, Capture("input", Some("INPUT"), "\U{1F600}", 500))];
      LongestAsWritten(s) == Done(NumberValue(2)) && LongestInput(s) == 2
  {
    var s := [Record(0, Capture("input", Some("INPUT"), "a", 0)),
              Record(1, Capture("input", Some("INPUT"), "\U{1F600}", 500))];
    assert s[1..][1..] == [];
    assert Inputs(s) == s;
    assert Utf16Length("a") == 1 && Utf16Length("\U{1F600}") == 2;
  }

  /** Two records at 1000 ms and 4000 ms, on the day that starts at 0: the
      source's total is 4000 ms, the elapsed time 3000 ms; a single record
      makes the source throw where the elapsed time is 0. */
  lemma TotalTimeAsWrittenOff()
    ensures var s := [Record(0, Capture("click", None, "", 1000)), Record(1, Capture("click", None, "", 4000))];
      TotalTimeAsWritten(s, 0) == Done(4000) && TotalTime(s) == 3000
    ensures var one := [Record(0, Capture("click", None, "", 1000))];
      TotalTimeAsWritten(one, 0) == TypeError && TotalTime(one) == 0
  {
    var s := [Record(0, Capture("click", None, "", 1000)), Record(1, Capture("click", None, "", 4000))];
    TotalTimeAsWrittenValue(s, 0);
    TotalTimeAsWrittenValue([Record(0, Capture("click", None, "", 1000))], 0);
  }

  /** Evenly spaced records one second apart: every delay is 1000 ms, but
      the mean, divided by the three records, is below the smallest delay. */
  lemma MeanBelowMinimum()
    ensures var s := [Record(0, Capture("click", None, "", 0)), Record(1, Capture("click", None, "", 1000)),
                      Record(2, Capture("click", None, "", 2000))];
      Delay(s, 0) == 1000 && Delay(s, 1) == 1000 && TotalTime(s) as real / 3.0 < 1000.0
  {
  }
}
