/** Small datatypes shared by all components. */
module Prelude {

  datatype Option<+T> = None | Some(value: T)

  /** `None` and the empty string are both falsy: neither one filters or selects anything. */
  predicate Given(o: Option<string>) {
    o.Some? && o.value != ""
  }

  predicate Sorted(times: seq<real>) {
    forall i, j | 0 <= i < j < |times| :: times[i] <= times[j]
  }

  function Reversed<T>(s: seq<T>): (r: seq<T>)
    ensures |r| == |s|
    ensures forall i | 0 <= i < |s| :: r[i] == s[|s| - 1 - i]
  {
    seq(|s|, i requires 0 <= i < |s| => s[|s| - 1 - i])
  }

  /** A loop that has collected `results` and has `rest` to come yields `answer`. */
  ghost predicate Continues<T>(answer: seq<T>, results: seq<T>, rest: seq<T>) {
    answer == results + rest
  }

  lemma OneMore<T>(answer: seq<T>, results: seq<T>, x: T, rest: seq<T>)
    requires Continues(answer, results, [x] + rest)
    ensures Continues(answer, results + [x], rest)
  {
    assert results + ([x] + rest) == results + [x] + rest;
  }
}
