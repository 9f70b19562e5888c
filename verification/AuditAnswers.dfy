/** What the answer to a query holds, in terms of what was recorded and what was asked. */
module AuditAnswers {
  import opened Prelude
  import opened AuditChain
  import opened AuditTransfer
  import opened AuditQuery

  /** `part` stands somewhere in `text`. */
  ghost predicate Inside(part: string, text: string) {
    exists before, after :: text == before + part + after
  }

  lemma ContainsIsInside(text: string, part: string)
    ensures Contains(text, part) <==> Inside(part, text)
  {
    if Contains(text, part) {
      var i :| 0 <= i <= |text| && part <= text[i..];
      assert text == text[..i] + part + text[i + |part|..];
    }
    if Inside(part, text) {
      var before, after :| text == before + part + after;
      assert text[|before|..] == part + after;
    }
  }

  /** What each filter asks of an entry.  `None`, the empty string and the time zero ask nothing. */
  ghost predicate Wanted(lower: string -> string, f: Filter, c: Content) {
    && (f.category == None || f.category == Some("") || f.category == Some(c.category))
    && (f.severity == None || f.severity == Some("") || f.severity == Some(c.severity))
    && (f.agentId == None || f.agentId == Some("") || f.agentId == c.agentId)
    && (f.eventContains == None || f.eventContains == Some("")
        || Inside(lower(f.eventContains.value), lower(c.event)))
    && (f.since == None || f.since == Some(0) || f.since.value <= c.timestamp)
    && (f.until == None || f.until == Some(0) || c.timestamp <= f.until.value)
  }

  lemma MatchesIffWanted(lower: string -> string, f: Filter, e: Entry)
    ensures Matches(FieldTest(lower, f), f, e) <==> Wanted(lower, f, e.content)
  {
    if f.eventContains.Some? {
      ContainsIsInside(lower(e.content.event), lower(f.eventContains.value));
    }
  }

  /** The answer to a query. */
  function Answer(lower: string -> string, f: Filter, order: Order, entries: seq<Entry>, offset: int, limit: int)
    : seq<Entry>
  {
    Scan(FieldTest(lower, f), f, order, Visited(entries, order), offset, limit)
  }

  /** For all times, orders and pages, an answer holds only entries of the log that are wanted, and no more than
      the limit. */
  lemma AnswerIsWanted(
      lower: string -> string, f: Filter, order: Order, entries: seq<Entry>, offset: int, limit: int, e: Entry)
    requires e in Answer(lower, f, order, entries, offset, limit)
    ensures e in entries && Wanted(lower, f, e.content)
  {
    var test, todo := FieldTest(lower, f), Visited(entries, order);
    ScanIsPage(test, f, order, todo, offset, limit);
    ReachedMatches(test, f, order, todo, e);
    MatchesIffWanted(lower, f, e);
  }

  lemma {:induction false} ReachedMatches(test: Entry -> bool, f: Filter, order: Order, todo: seq<Entry>, e: Entry)
    requires e in Reached(test, f, order, todo)
    ensures e in todo && Matches(test, f, e)
    decreases |todo|
  {
    KeptIffMatches(test, f, order, todo[0]);
    if !(Examine(test, f, order, todo[0]).Keep? && e == todo[0]) {
      ReachedMatches(test, f, order, todo[1..], e);
    }
  }

  lemma {:induction false} MatchingHolds(test: Entry -> bool, f: Filter, todo: seq<Entry>, e: Entry)
    requires e in todo && Matches(test, f, e)
    ensures e in Matching(test, f, todo)
    decreases |todo|
  {
    if e != todo[0] {
      MatchingHolds(test, f, todo[1..], e);
    }
  }

  /** On ordered times and a documented order, a full answer holds exactly the wanted entries of the log. */
  lemma AnswerIffWanted(lower: string -> string, f: Filter, order: Order, entries: seq<Entry>, e: Entry)
    requires NonDecreasing(entries) && !order.Other?
    ensures e in Answer(lower, f, order, entries, 0, |entries|) <==> e in entries && Wanted(lower, f, e.content)
  {
    var test, todo := FieldTest(lower, f), Visited(entries, order);
    if e in Answer(lower, f, order, entries, 0, |entries|) {
      AnswerIsWanted(lower, f, order, entries, 0, |entries|, e);
    }
    if e in entries && Wanted(lower, f, e.content) {
      var i :| 0 <= i < |entries| && entries[i] == e;
      assert e == todo[if order.Asc? then i else |entries| - 1 - i];
      MatchesIffWanted(lower, f, e);
      MatchingHolds(test, f, todo, e);
      OrderedTimesHideNothing(test, f, order, entries);
      AllReachedIff(test, f, order, todo);
      PagesConcatenate(test, f, order, todo, 0, |entries|, 0);
    }
  }

  /** What a filter asks of a request made at time `now`. */
  ghost predicate WantedRequest(lower: string -> string, f: Filter, now: int, r: Request) {
    && (f.category == None || f.category == Some("") || f.category == Some(r.category))
    && (f.severity == None || f.severity == Some("") || f.severity == Some(r.severity))
    && (f.agentId == None || f.agentId == Some("") || f.agentId == r.agentId)
    && (f.eventContains == None || f.eventContains == Some("")
        || Inside(lower(f.eventContains.value), lower(r.event)))
    && (f.since == None || f.since == Some(0) || f.since.value <= now)
    && (f.until == None || f.until == Some(0) || now <= f.until.value)
  }

  /** What has been recorded is found: the entry for a request is in the answer exactly when the request's own
      category, severity, agent, event and time are wanted. */
  lemma RecordedIsFoundIff(
      s: Scheme, lower: string -> string, before: seq<Entry>, now: int, r: Request, f: Filter, order: Order)
    requires NonDecreasing(before + [Sealed(s, before, now, r)]) && !order.Other?
    ensures var e := Sealed(s, before, now, r);
      e in Answer(lower, f, order, before + [e], 0, |before| + 1) <==> WantedRequest(lower, f, now, r)
  {
    var e := Sealed(s, before, now, r);
    AnswerIffWanted(lower, f, order, before + [e], e);
  }

  /** In a documented order an answer goes with the times or against them. */
  lemma AnswerIsOrdered(
      lower: string -> string, f: Filter, order: Order, entries: seq<Entry>, offset: int, limit: int, i: nat, j: nat)
    requires NonDecreasing(entries) && i < j < |Answer(lower, f, order, entries, offset, limit)|
    ensures var a := Answer(lower, f, order, entries, offset, limit);
      if order.Asc? then a[i].content.timestamp <= a[j].content.timestamp
      else a[i].content.timestamp >= a[j].content.timestamp
  {
    var test, todo := FieldTest(lower, f), Visited(entries, order);
    ScanIsPage(test, f, order, todo, offset, limit);
    var reached := Reached(test, f, order, todo);
    ReachedIsOrdered(test, f, order, todo, Clamp(offset, |reached|) + i, Clamp(offset, |reached|) + j);
  }

  lemma {:induction false} ReachedIsOrdered(
      test: Entry -> bool, f: Filter, order: Order, todo: seq<Entry>, i: nat, j: nat)
    requires i < j < |Reached(test, f, order, todo)|
    requires forall k, l | 0 <= k < l < |todo| :: InLine(order, todo[k], todo[l])
    ensures InLine(order, Reached(test, f, order, todo)[i], Reached(test, f, order, todo)[j])
    decreases |todo|
  {
    var rest := Reached(test, f, order, todo[1..]);
    if !Examine(test, f, order, todo[0]).Keep? {
      ReachedIsOrdered(test, f, order, todo[1..], i, j);
    } else if i > 0 {
      ReachedIsOrdered(test, f, order, todo[1..], i - 1, j - 1);
    } else {
      assert rest[j - 1] in rest;
      ReachedMatches(test, f, order, todo[1..], rest[j - 1]);
    }
  }

  predicate InLine(order: Order, a: Entry, b: Entry) {
    if order.Asc? then a.content.timestamp <= b.content.timestamp else a.content.timestamp >= b.content.timestamp
  }

  /** A page is as long as the limit and the entries left allow. */
  lemma PageLength(lower: string -> string, f: Filter, order: Order, entries: seq<Entry>, offset: nat, limit: nat)
    ensures var left := |Reached(FieldTest(lower, f), f, order, Visited(entries, order))| - offset;
      |Answer(lower, f, order, entries, offset, limit)| == if left <= 0 then 0 else if left < limit then left else limit
  {
    ScanIsPage(FieldTest(lower, f), f, order, Visited(entries, order), offset, limit);
  }

  /** Negative offsets and limits count as zero. */
  lemma NegativePage(lower: string -> string, f: Filter, order: Order, entries: seq<Entry>, offset: int, limit: int)
    ensures offset <= 0 ==>
      Answer(lower, f, order, entries, offset, limit) == Answer(lower, f, order, entries, 0, limit)
    ensures limit <= 0 ==> Answer(lower, f, order, entries, offset, limit) == []
  {
    ScanIsPage(FieldTest(lower, f), f, order, Visited(entries, order), offset, limit);
    ScanIsPage(FieldTest(lower, f), f, order, Visited(entries, order), 0, limit);
  }
}
