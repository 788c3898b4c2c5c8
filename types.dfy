/** The entities of the record editor: a captured interaction event, the
    ranked record that wraps it, and the two ways a JavaScript call of the
    source can end (a value, or a thrown TypeError). */
module Types {

  datatype Option<+T> = None | Some(value: T)

  /** One captured interaction (the `data` of a record). Only the fields the
      editor reads are kept: `event.type`, `setup.nodeName`, `setup.value` and
      `time`, the last one as integer milliseconds since the epoch. */
  datatype Capture = Capture(
    eventType: string,
    nodeName: Option<string>,
    value: string,
    time: int)

  /** A record of the list: its rank (`order`) and its payload (`data`). */
  datatype Record = Record(order: int, data: Capture)

  /** How a call of the source ends: with a value, or by throwing a TypeError
      (reading a property of `undefined`, or `reduce` of an empty array
      without a seed). */
  datatype Outcome<+T> = Done(value: T) | TypeError

  /** The ranks of a list of records, in array order. */
  function Orders(s: seq<Record>): (r: seq<int>)
    ensures |r| == |s| && forall i :: 0 <= i < |s| ==> r[i] == s[i].order
  {
    seq(|s|, i requires 0 <= i < |s| => s[i].order)
  }

  /** The payloads of a list of records, in array order; this is also the body
      that saving sends (`records.map(record => record.data)`). */
  function Payloads(s: seq<Record>): (r: seq<Capture>)
    ensures |r| == |s| && forall i :: 0 <= i < |s| ==> r[i] == s[i].data
  {
    seq(|s|, i requires 0 <= i < |s| => s[i].data)
  }

  /** Whether a character lies outside the Basic Multilingual Plane, where
      UTF-16 needs a surrogate pair for it. */
  predicate IsAstral(c: char) {
    c as int >= 0x1_0000
  }

  /** JavaScript's `length` of a string: the number of UTF-16 code units, one
      for a character of the Basic Multilingual Plane and two for any other. */
  function Utf16Length(s: string): (n: nat)
    ensures |s| <= n <= 2 * |s|
  {
    if s == [] then 0 else (if IsAstral(s[0]) then 2 else 1) + Utf16Length(s[1..])
  }

  /** The code units of a concatenation are those of its parts. */
  lemma {:induction false} Utf16LengthAppend(a: string, b: string)
    ensures Utf16Length(a + b) == Utf16Length(a) + Utf16Length(b)
  {
    if a == [] {
      assert a + b == b;
    } else {
      assert (a + b)[0] == a[0] && (a + b)[1..] == a[1..] + b;
      Utf16LengthAppend(a[1..], b);
    }
  }

  /** The code-unit length equals the number of characters exactly when no
      character lies outside the Basic Multilingual Plane. */
  lemma {:induction false} Utf16LengthIsCharCount(s: string)
    ensures Utf16Length(s) == |s| <==> forall i :: 0 <= i < |s| ==> !IsAstral(s[i])
  {
    if s != [] {
      Utf16LengthIsCharCount(s[1..]);
      assert forall i :: 1 <= i < |s| ==> s[i] == s[1..][i - 1];
    }
  }
}
