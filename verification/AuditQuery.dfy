/** Filtered, paginated queries: the scan with its early exits, and the plain meaning of a page. */
module AuditQuery {
  import opened Prelude
  import opened AuditChain
  import opened AuditTransfer

  /** `None`, the empty string and the time zero all mean "no such filter". */
  datatype Filter = Filter(
    category: Option<string>,
    severity: Option<string>,
    agentId: Option<string>,
    eventContains: Option<string>,
    since: Option<int>,
    until: Option<int>)

  /** `sort_order`: "asc", "desc" or any other string. */
  datatype Order = Asc | Desc | Other

  predicate Bound(t: Option<int>) {
    t.Some? && t.value != 0
  }

  predicate Contains(text: string, part: string) {
    exists i | 0 <= i <= |text| :: part <= text[i..]
  }

  /** The filters other than the two time bounds. */
  predicate FieldsMatch(lower: string -> string, f: Filter, e: Entry) {
    && (Given(f.category) ==> e.content.category == f.category.value)
    && (Given(f.severity) ==> e.content.severity == f.severity.value)
    && (Given(f.agentId) ==> e.content.agentId == f.agentId)
    && (Given(f.eventContains) ==> Contains(lower(e.content.event), lower(f.eventContains.value)))
  }

  /** The filters on fields as one test.  The scan and its meaning are the same whatever this test is. */
  function FieldTest(lower: string -> string, f: Filter): Entry -> bool {
    e => FieldsMatch(lower, f, e)
  }

  predicate TooOld(f: Filter, e: Entry) {
    Bound(f.since) && e.content.timestamp < f.since.value
  }

  predicate TooNew(f: Filter, e: Entry) {
    Bound(f.until) && e.content.timestamp > f.until.value
  }

  predicate Matches(test: Entry -> bool, f: Filter, e: Entry) {
    test(e) && !TooOld(f, e) && !TooNew(f, e)
  }

  // ----- The meaning of a query -----

  function Matching(test: Entry -> bool, f: Filter, entries: seq<Entry>): seq<Entry> {
    if entries == [] then []
    else if Matches(test, f, entries[0]) then [entries[0]] + Matching(test, f, entries[1..])
    else Matching(test, f, entries[1..])
  }

  function Clamp(n: int, top: nat): (k: nat)
    ensures k <= top
  {
    if n < 0 then 0 else if n > top then top else n
  }

  /** Drop `offset` elements, then take at most `limit`; negative numbers count as zero. */
  function Page<T>(s: seq<T>, offset: int, limit: int): seq<T> {
    var rest := s[Clamp(offset, |s|)..];
    rest[..Clamp(limit, |rest|)]
  }

  /** The order in which the entries are visited: anything but "asc" goes backwards. */
  function Visited(entries: seq<Entry>, order: Order): seq<Entry> {
    if order.Asc? then entries else Reversed(entries)
  }

  /** Filter, order, drop `offset`, take `limit`. */
  function QueryMeaning(test: Entry -> bool, f: Filter, entries: seq<Entry>, order: Order,
                        offset: int, limit: int): seq<Entry> {
    Page(Matching(test, f, Visited(entries, order)), offset, limit)
  }

  // ----- The scan -----

  datatype Turn = Skip | Stop | Keep

  /** What the loop body does with one entry, before pagination.  An entry beyond the far time bound ends
      the scan; "asc" and "desc" are compared separately, so another order stops at either bound. */
  function Examine(test: Entry -> bool, f: Filter, order: Order, e: Entry): Turn {
    if !test(e) then Skip
    else if TooOld(f, e) then if order.Asc? then Skip else Stop
    else if TooNew(f, e) then if order.Desc? then Skip else Stop
    else Keep
  }

  function Scan(test: Entry -> bool, f: Filter, order: Order, todo: seq<Entry>, offset: int, limit: int): seq<Entry> {
    if todo == [] || limit <= 0 then []
    else match Examine(test, f, order, todo[0])
      case Skip => Scan(test, f, order, todo[1..], offset, limit)
      case Stop => []
      case Keep =>
        if offset > 0 then Scan(test, f, order, todo[1..], offset - 1, limit)
        else [todo[0]] + Scan(test, f, order, todo[1..], offset, limit - 1)
  }

  /** The loop: a skip counter, a limit, and two early exits. */
  method ScanEntries(test: Entry -> bool, f: Filter, order: Order, todo: seq<Entry>, offset: int, limit: int)
    returns (results: seq<Entry>)
    ensures results == Scan(test, f, order, todo, offset, limit)
  {
    results := [];
    var skipCount := 0;
    ghost var answer := Scan(test, f, order, todo, offset, limit);
    ghost var rest := answer;
    assert todo[0..] == todo;
    for i := 0 to |todo|
      invariant skipCount <= offset || skipCount == 0
      invariant rest == Scan(test, f, order, todo[i..], offset - skipCount, limit - |results|)
      invariant Continues(answer, results, rest)
    {
      if |results| >= limit {
        break;
      }
      ScanStep(test, f, order, todo, i, offset - skipCount, limit - |results|);
      var turn := ExamineEntry(test, f, order, todo[i]);
      if turn == Skip {
        continue;
      }
      if turn == Stop {
        break;
      }
      if skipCount < offset {
        skipCount := skipCount + 1;
        continue;
      }
      rest := Scan(test, f, order, todo[i + 1..], offset - skipCount, limit - |results| - 1);
      OneMore(answer, results, todo[i], rest);
      results := results + [todo[i]];
    }
  }

  /** The filters of the loop body, in the order of the source. */
  method ExamineEntry(test: Entry -> bool, f: Filter, order: Order, e: Entry) returns (turn: Turn)
    ensures turn == Examine(test, f, order, e)
  {
    if !test(e) {
      return Skip;
    }
    if TooOld(f, e) {
      if order.Asc? {
        return Skip;
      }
      return Stop;
    }
    if TooNew(f, e) {
      if order.Desc? {
        return Skip;
      }
      return Stop;
    }
    return Keep;
  }

  /** One turn of the loop. */
  lemma ScanStep(test: Entry -> bool, f: Filter, order: Order, todo: seq<Entry>, i: nat, offset: int, limit: int)
    requires i < |todo| && limit > 0
    ensures Scan(test, f, order, todo[i..], offset, limit)
         == match Examine(test, f, order, todo[i])
            case Skip => Scan(test, f, order, todo[i + 1..], offset, limit)
            case Stop => []
            case Keep =>
              if offset > 0 then Scan(test, f, order, todo[i + 1..], offset - 1, limit)
              else [todo[i]] + Scan(test, f, order, todo[i + 1..], offset, limit - 1)
  {
    assert todo[i..][1..] == todo[i + 1..];
  }

  // ----- What the scan returns -----

  /** The entries that the scan keeps before it ends, whatever the page. */
  function Reached(test: Entry -> bool, f: Filter, order: Order, todo: seq<Entry>): seq<Entry> {
    if todo == [] then []
    else match Examine(test, f, order, todo[0])
      case Skip => Reached(test, f, order, todo[1..])
      case Stop => []
      case Keep => [todo[0]] + Reached(test, f, order, todo[1..])
  }

  /** For all times and every order, the scan returns a page of what it can reach. */
  lemma {:induction false} ScanIsPage(
      test: Entry -> bool, f: Filter, order: Order, todo: seq<Entry>, offset: int, limit: int)
    ensures Scan(test, f, order, todo, offset, limit) == Page(Reached(test, f, order, todo), offset, limit)
    decreases |todo|
  {
    if todo == [] || limit <= 0 {
      EmptyPage(Reached(test, f, order, todo), offset, limit);
    } else {
      var rest := todo[1..];
      match Examine(test, f, order, todo[0])
      case Skip =>
        ScanIsPage(test, f, order, rest, offset, limit);
      case Stop =>
        EmptyPage(Reached(test, f, order, todo), offset, limit);
      case Keep =>
        PageOfCons(todo[0], Reached(test, f, order, rest), offset, limit);
        if offset > 0 {
          ScanIsPage(test, f, order, rest, offset - 1, limit);
        } else {
          ScanIsPage(test, f, order, rest, offset, limit - 1);
        }
    }
  }

  /** Consecutive pages of a query concatenate to one page, and a large enough page is all that can be reached:
      no entry is shown twice or left out between pages, for all times and every order. */
  lemma PagesConcatenate(
      test: Entry -> bool, f: Filter, order: Order, todo: seq<Entry>, offset: nat, first: nat, second: nat)
    ensures Scan(test, f, order, todo, offset, first) + Scan(test, f, order, todo, offset + first, second)
         == Scan(test, f, order, todo, offset, first + second)
    ensures |todo| <= first ==> Scan(test, f, order, todo, 0, first) == Reached(test, f, order, todo)
  {
    var reached := Reached(test, f, order, todo);
    ScanIsPage(test, f, order, todo, offset, first);
    ScanIsPage(test, f, order, todo, offset + first, second);
    ScanIsPage(test, f, order, todo, offset, first + second);
    ScanIsPage(test, f, order, todo, 0, first);
    ReachedNoLonger(test, f, order, todo);
    SlicesConcatenate(reached, offset, first, second);
  }

  lemma {:induction false} ReachedNoLonger(test: Entry -> bool, f: Filter, order: Order, todo: seq<Entry>)
    ensures |Reached(test, f, order, todo)| <= |todo|
    decreases |todo|
  {
    if todo != [] {
      ReachedNoLonger(test, f, order, todo[1..]);
    }
  }

  lemma EmptyPage<T>(s: seq<T>, offset: int, limit: int)
    requires s == [] || limit <= 0
    ensures Page(s, offset, limit) == []
  {
  }

  lemma PageOfCons<T>(x: T, rest: seq<T>, offset: int, limit: int)
    requires limit > 0
    ensures offset > 0 ==> Page([x] + rest, offset, limit) == Page(rest, offset - 1, limit)
    ensures offset <= 0 ==> Page([x] + rest, offset, limit) == [x] + Page(rest, offset, limit - 1)
  {
    if offset > 0 {
      assert ([x] + rest)[Clamp(offset, |rest| + 1)..] == rest[Clamp(offset - 1, |rest|)..];
    } else {
      assert ([x] + rest)[0..] == [x] + rest && rest[0..] == rest;
    }
  }

  lemma SlicesConcatenate<T>(s: seq<T>, offset: nat, first: nat, second: nat)
    ensures Page(s, offset, first) + Page(s, offset + first, second) == Page(s, offset, first + second)
    ensures |s| <= first ==> Page(s, 0, first) == s
  {
    var a, b, c := Clamp(offset, |s|), Clamp(offset + first, |s|), Clamp(offset + first + second, |s|);
    assert Page(s, offset, first) == s[a..b];
    assert Page(s, offset + first, second) == s[b..c];
    assert Page(s, offset, first + second) == s[a..c];
  }

  // ----- When the early exits lose nothing -----

  /** A visited entry that ends the scan comes before one that matches. */
  predicate Hides(test: Entry -> bool, f: Filter, order: Order, todo: seq<Entry>) {
    exists i, j | 0 <= i < j < |todo| :: Examine(test, f, order, todo[i]).Stop? && Matches(test, f, todo[j])
  }

  /** Every page of the query is what it means. */
  ghost predicate Exact(test: Entry -> bool, f: Filter, order: Order, entries: seq<Entry>) {
    forall offset, limit ::
      Scan(test, f, order, Visited(entries, order), offset, limit)
      == QueryMeaning(test, f, entries, order, offset, limit)
  }

  /** The scan is right on every page exactly when no entry that ends it comes before a match. */
  lemma ExactIffNothingHidden(test: Entry -> bool, f: Filter, order: Order, entries: seq<Entry>)
    ensures Exact(test, f, order, entries) <==> !Hides(test, f, order, Visited(entries, order))
  {
    var todo := Visited(entries, order);
    var reached, matching := Reached(test, f, order, todo), Matching(test, f, todo);
    AllReachedIff(test, f, order, todo);
    forall offset, limit
      ensures Scan(test, f, order, todo, offset, limit) == Page(reached, offset, limit)
    {
      ScanIsPage(test, f, order, todo, offset, limit);
    }
    if Exact(test, f, order, entries) {
      var all := |reached| + |matching|;
      assert Page(reached, 0, all) == Page(matching, 0, all) by {
        assert Scan(test, f, order, todo, 0, all) == QueryMeaning(test, f, entries, order, 0, all);
      }
      SlicesConcatenate(reached, 0, all, 0);
      SlicesConcatenate(matching, 0, all, 0);
    }
  }

  /** The scan reaches all matches exactly when none is hidden. */
  lemma {:induction false} AllReachedIff(test: Entry -> bool, f: Filter, order: Order, todo: seq<Entry>)
    ensures Reached(test, f, order, todo) == Matching(test, f, todo) <==> !Hides(test, f, order, todo)
    decreases |todo|
  {
    if todo != [] {
      var e, rest := todo[0], todo[1..];
      HiddenInTail(test, f, order, todo);
      KeptIffMatches(test, f, order, e);
      if Examine(test, f, order, e).Stop? {
        NothingAfterStop(test, f, order, todo);
      } else {
        AllReachedIff(test, f, order, rest);
        if Examine(test, f, order, e).Keep? {
          SameTail(e, Reached(test, f, order, rest), Matching(test, f, rest));
        }
      }
    }
  }

  lemma SameTail<T>(x: T, a: seq<T>, b: seq<T>)
    ensures [x] + a == [x] + b <==> a == b
  {
    assert ([x] + a)[1..] == a && ([x] + b)[1..] == b;
  }

  lemma NothingAfterStop(test: Entry -> bool, f: Filter, order: Order, todo: seq<Entry>)
    requires todo != [] && Examine(test, f, order, todo[0]).Stop?
    ensures Matching(test, f, todo) == [] <==> !Hides(test, f, order, todo)
  {
    KeptIffMatches(test, f, order, todo[0]);
    if Hides(test, f, order, todo) {
      var i, j :| 0 <= i < j < |todo| && Examine(test, f, order, todo[i]).Stop? && Matches(test, f, todo[j]);
      MatchingSomething(test, f, todo, j);
    } else {
      assert forall j | 0 < j < |todo| :: !Matches(test, f, todo[j]);
      MatchingNothing(test, f, todo);
    }
  }

  lemma HiddenInTail(test: Entry -> bool, f: Filter, order: Order, todo: seq<Entry>)
    requires todo != []
    ensures Hides(test, f, order, todo[1..]) ==> Hides(test, f, order, todo)
    ensures Hides(test, f, order, todo) && !Examine(test, f, order, todo[0]).Stop? ==> Hides(test, f, order, todo[1..])
  {
    var rest := todo[1..];
    if Hides(test, f, order, rest) {
      var i, j :| 0 <= i < j < |rest| && Examine(test, f, order, rest[i]).Stop? && Matches(test, f, rest[j]);
      assert rest[i] == todo[i + 1] && rest[j] == todo[j + 1];
    }
    if Hides(test, f, order, todo) && !Examine(test, f, order, todo[0]).Stop? {
      var i, j :| 0 <= i < j < |todo| && Examine(test, f, order, todo[i]).Stop? && Matches(test, f, todo[j]);
      assert rest[i - 1] == todo[i] && rest[j - 1] == todo[j];
    }
  }

  lemma KeptIffMatches(test: Entry -> bool, f: Filter, order: Order, e: Entry)
    ensures Examine(test, f, order, e).Keep? <==> Matches(test, f, e)
  {
  }

  lemma {:induction false} MatchingNothing(test: Entry -> bool, f: Filter, todo: seq<Entry>)
    requires forall j | 0 <= j < |todo| :: !Matches(test, f, todo[j])
    ensures Matching(test, f, todo) == []
    decreases |todo|
  {
    if todo != [] {
      MatchingNothing(test, f, todo[1..]);
    }
  }

  lemma {:induction false} MatchingSomething(test: Entry -> bool, f: Filter, todo: seq<Entry>, j: nat)
    requires j < |todo| && Matches(test, f, todo[j])
    ensures Matching(test, f, todo) != []
    decreases |todo|
  {
    if j > 0 {
      MatchingSomething(test, f, todo[1..], j - 1);
    }
  }

  // ----- Clocks -----

  predicate NonDecreasing(entries: seq<Entry>) {
    forall i, j | 0 <= i < j < |entries| :: entries[i].content.timestamp <= entries[j].content.timestamp
  }

  lemma OrderedTimesHideNothing(test: Entry -> bool, f: Filter, order: Order, entries: seq<Entry>)
    requires NonDecreasing(entries) && !order.Other?
    ensures !Hides(test, f, order, Visited(entries, order))
  {
  }

  /** On a log with non-decreasing times the early exits lose nothing. */
  lemma ScanIsMeaning(test: Entry -> bool, f: Filter, entries: seq<Entry>, order: Order, offset: int, limit: int)
    requires NonDecreasing(entries) && !order.Other?
    ensures Scan(test, f, order, Visited(entries, order), offset, limit)
         == QueryMeaning(test, f, entries, order, offset, limit)
  {
    OrderedTimesHideNothing(test, f, order, entries);
    ExactIffNothingHidden(test, f, order, entries);
  }

  function OnlySince(t: int): Filter {
    Filter(None, None, None, None, Some(t), None)
  }

  function OnlyUntil(t: int): Filter {
    Filter(None, None, None, None, None, Some(t))
  }

  /** The query with these filters is right on every page. */
  ghost predicate Answers(lower: string -> string, f: Filter, order: Order, entries: seq<Entry>) {
    Exact(FieldTest(lower, f), f, order, entries)
  }

  /** An entry later than one recorded after it is missed by the query for everything since its own time,
      and the one recorded after it by the query for everything until its own time. */
  lemma SetBackHides(lower: string -> string, entries: seq<Entry>, i: nat, j: nat)
    requires i < j < |entries| && entries[i].content.timestamp > entries[j].content.timestamp
    ensures entries[i].content.timestamp != 0 ==>
      !Answers(lower, OnlySince(entries[i].content.timestamp), Desc, entries)
    ensures entries[j].content.timestamp != 0 ==>
      !Answers(lower, OnlyUntil(entries[j].content.timestamp), Asc, entries)
  {
    var n := |entries|;
    if entries[i].content.timestamp != 0 {
      var f := OnlySince(entries[i].content.timestamp);
      var test, todo := FieldTest(lower, f), Visited(entries, Desc);
      assert todo[n - 1 - j] == entries[j] && todo[n - 1 - i] == entries[i];
      assert Examine(test, f, Desc, entries[j]).Stop? && Matches(test, f, entries[i]);
      ExactIffNothingHidden(test, f, Desc, entries);
    }
    if entries[j].content.timestamp != 0 {
      var f := OnlyUntil(entries[j].content.timestamp);
      var test := FieldTest(lower, f);
      assert Examine(test, f, Asc, entries[i]).Stop? && Matches(test, f, entries[j]);
      ExactIffNothingHidden(test, f, Asc, entries);
    }
  }

  /** A log answers every query in a documented order exactly when its clock was never set back. */
  lemma AnswersEverythingIffOrdered(lower: string -> string, entries: seq<Entry>)
    ensures (forall f, order: Order | !order.Other? :: Answers(lower, f, order, entries)) <==> NonDecreasing(entries)
  {
    if NonDecreasing(entries) {
      forall f, order: Order | !order.Other?
        ensures Answers(lower, f, order, entries)
      {
        OrderedTimesHideNothing(FieldTest(lower, f), f, order, entries);
        ExactIffNothingHidden(FieldTest(lower, f), f, order, entries);
      }
    } else {
      var i, j :| 0 <= i < j < |entries| && entries[i].content.timestamp > entries[j].content.timestamp;
      SetBackHides(lower, entries, i, j);
    }
  }

  /** So two records made while the clock is set back, from 20 to 5, form a valid log on which a query fails. */
  lemma ClockSetBackHidesEntry(s: Scheme, lower: string -> string, r: Request)
    ensures var first := Sealed(s, [], 20, r);
      var log := [first, Sealed(s, [first], 5, r)];
      ValidChain(s, log) && !Answers(lower, OnlySince(20), Desc, log)
  {
    var first := Sealed(s, [], 20, r);
    var second := Sealed(s, [first], 5, r);
    var log := [first, second];
    assert [] + [first] == [first] && [first] + [second] == log;
    ValidAppend(s, [], first);
    ValidAppend(s, [first], second);
    SetBackHides(lower, log, 0, 1);
  }

  // ----- Any other sort order -----

  /** Some entry passes every filter but is newer than `until`. */
  predicate Blocked(test: Entry -> bool, f: Filter, entries: seq<Entry>) {
    exists i | 0 <= i < |entries| :: Blocks(test, f, entries[i])
  }

  predicate Blocks(test: Entry -> bool, f: Filter, e: Entry) {
    test(e) && !TooOld(f, e) && TooNew(f, e)
  }

  /** With an order that is neither "asc" nor "desc" the scan runs backwards but stops at the first entry that
      blocks.  The answer is the "desc" answer exactly when nothing blocks or the "desc" answer is empty. */
  lemma OtherOrderMeaning(test: Entry -> bool, f: Filter, entries: seq<Entry>, order: Order, offset: int, limit: int)
    requires NonDecreasing(entries) && order.Other?
    ensures var scan := Scan(test, f, order, Visited(entries, order), offset, limit);
      var descending := QueryMeaning(test, f, entries, Desc, offset, limit);
      && scan == (if Blocked(test, f, entries) then [] else descending)
      && (scan == descending <==> !Blocked(test, f, entries) || descending == [])
  {
    if Blocked(test, f, entries) {
      BlockedIsEmpty(test, f, entries, order, offset, limit);
    } else {
      UnblockedIsDescending(test, f, entries, order, offset, limit);
    }
  }

  lemma BlockedIsEmpty(test: Entry -> bool, f: Filter, entries: seq<Entry>, order: Order, offset: int, limit: int)
    requires NonDecreasing(entries) && order.Other? && Blocked(test, f, entries)
    ensures Scan(test, f, order, Visited(entries, order), offset, limit) == []
  {
    var todo, n := Reversed(entries), |entries|;
    var i :| 0 <= i < n && Blocks(test, f, entries[i]);
    assert todo[n - 1 - i] == entries[i];
    assert forall j | 0 <= j < n - 1 - i :: TooNew(f, todo[j]);
    ScanStopsEmpty(test, f, order, todo, n - 1 - i, offset, limit);
  }

  lemma UnblockedIsDescending(
      test: Entry -> bool, f: Filter, entries: seq<Entry>, order: Order, offset: int, limit: int)
    requires NonDecreasing(entries) && order.Other? && !Blocked(test, f, entries)
    ensures Scan(test, f, order, Visited(entries, order), offset, limit)
         == QueryMeaning(test, f, entries, Desc, offset, limit)
  {
    var todo, n := Reversed(entries), |entries|;
    forall j | 0 <= j < n
      ensures Examine(test, f, order, todo[j]) == Examine(test, f, Desc, todo[j])
    {
      assert todo[j] == entries[n - 1 - j] && !Blocks(test, f, entries[n - 1 - j]);
    }
    ScanSameTurns(test, f, order, Desc, todo, offset, limit);
    ScanIsMeaning(test, f, entries, Desc, offset, limit);
  }

  lemma {:induction false} ScanSameTurns(
      test: Entry -> bool, f: Filter, a: Order, b: Order, todo: seq<Entry>, offset: int, limit: int)
    requires forall j | 0 <= j < |todo| :: Examine(test, f, a, todo[j]) == Examine(test, f, b, todo[j])
    ensures Scan(test, f, a, todo, offset, limit) == Scan(test, f, b, todo, offset, limit)
    decreases |todo|
  {
    if todo != [] {
      ScanSameTurns(test, f, a, b, todo[1..], offset, limit);
      ScanSameTurns(test, f, a, b, todo[1..], offset - 1, limit);
      ScanSameTurns(test, f, a, b, todo[1..], offset, limit - 1);
    }
  }

  lemma {:induction false} ScanStopsEmpty(
      test: Entry -> bool, f: Filter, order: Order, todo: seq<Entry>, i: nat, offset: int, limit: int)
    requires i < |todo| && Examine(test, f, order, todo[i]).Stop?
    requires forall j | 0 <= j < i :: !Examine(test, f, order, todo[j]).Keep?
    ensures Scan(test, f, order, todo, offset, limit) == []
    decreases |todo|
  {
    if i > 0 {
      ScanStopsEmpty(test, f, order, todo[1..], i - 1, offset, limit);
    }
  }
}
