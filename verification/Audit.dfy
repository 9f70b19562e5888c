/** The log object: its methods compute the functions whose properties the other audit modules prove. */
module Audit {
  import opened Prelude
  import opened AuditChain
  import opened AuditTransfer
  import Tree = MerkleTree
  import Binding = MerkleBinding
  import Query = AuditQuery
  import Answers = AuditAnswers

  /** An export file and, beside it, the tracker holding the last exported sequence number. */
  class ExportFile {
    var lines: seq<Entry>
    var tracker: Option<int>

    constructor ()
      ensures lines == [] && tracker == None
    {
      lines := [];
      tracker := None;
    }
  }

  class AuditLog {
    const s: Scheme
    var entries: seq<Entry>
    var index: map<int, int>
    var dirty: bool

    ghost predicate Valid()
      reads this
    {
      && (forall i :: i in index <==> 1 <= i <= |entries|)
      && (forall i | i in index :: index[i] == i - 1)
    }

    constructor (s: Scheme)
      ensures Valid() && entries == [] && !dirty && this.s == s
      ensures ValidChain(s, entries)
    {
      this.s := s;
      entries := [];
      index := map[];
      dirty := false;
    }

    ghost function Archived(f: ExportFile): Archive
      reads this, f
    {
      Archive(entries, f.lines, f.tracker)
    }

    method LastHash() returns (h: string)
      ensures h == Head(entries)
    {
      if entries == [] {
        h := GENESIS_HASH;
      } else {
        h := entries[|entries| - 1].entryHash;
      }
    }

    /** Appends one sealed entry.  A valid chain stays valid. */
    method Record(now: int, r: Request) returns (e: Entry)
      requires Valid()
      modifies this
      ensures Valid() && dirty
      ensures e == Sealed(s, old(entries), now, r)
      ensures e.content == Content(now, r.category, r.severity, r.event, r.agentId, r.taskId,
                                   if r.details == None then "{}" else r.details.value, old(Head(entries)))
      ensures entries == old(entries) + [e]
      ensures ValidChain(s, entries) <==> old(ValidChain(s, entries))
    {
      var sequence := |entries| + 1;
      var prevHash := LastHash();
      var details := if r.details.Some? then r.details.value else "{}";
      var c := Content(now, r.category, r.severity, r.event, r.agentId, r.taskId, details, prevHash);
      e := Entry(c, s.hash(s.text(c)), sequence);
      ValidAppend(s, entries, e);
      entries := entries + [e];
      index := index[sequence := |entries| - 1];
      dirty := true;
    }

    /** Accepts exactly the valid chains; otherwise reports the sequence field and the first failed check of
        the first entry that does not follow from the ones before it. */
    method VerifyChain() returns (v: Verdict)
      ensures v == VerdictOn(s, entries)
      ensures v.Intact? <==> ValidChain(s, entries)
      ensures v.Broken? ==> exists k: nat ::
        && FirstOffender(s, entries, k)
        && v.at == entries[k].sequence
        && Complaint(s, entries[..k], entries[k]) == Some(v.reason)
    {
      var prevHash := GENESIS_HASH;
      for i := 0 to |entries|
        invariant ValidChain(s, entries[..i])
        invariant prevHash == Head(entries[..i])
      {
        var entry := entries[i];
        assert entries[..i + 1] == entries[..i] + [entry];
        ValidAppend(s, entries[..i], entry);
        if !Follows(s, entries[..i], entry) {
          assert FirstOffender(s, entries, i);
          VerdictIs(s, entries, i);
        }
        if entry.sequence != i + 1 {
          return Broken(entry.sequence, SequenceGap);
        }
        if entry.content.prevHash != prevHash {
          return Broken(entry.sequence, LinkMismatch);
        }
        var expectedHash := s.hash(s.text(entry.content));
        if entry.entryHash != expectedHash {
          return Broken(entry.sequence, HashMismatch);
        }
        prevHash := entry.entryHash;
      }
      assert entries[..|entries|] == entries;
      IntactIffValid(s, entries);
      v := Intact;
    }

    method ComputeMerkleRoot() returns (root: string)
      ensures root == Binding.LogRoot(s, entries)
    {
      if entries == [] {
        return s.hash(Binding.EMPTY_MARKER);
      }
      root := Tree.MerkleRoot(s.hash, Binding.Leaves(entries));
    }

    method ComputeMerkleProof(sequence: int) returns (proof: seq<string>)
      ensures proof == Binding.LogProof(s, entries, sequence)
      ensures sequence < 1 || sequence > |entries| ==> proof == []
    {
      if entries == [] {
        return [];
      }
      var leaves := Binding.Leaves(entries);
      var idx := sequence - 1;
      if idx < 0 || idx >= |leaves| {
        return [];
      }
      proof := Tree.MerkleProof(s.hash, leaves, idx);
    }

    /** The scan with early exits.  It is exactly filter, order, drop, take when no match is hidden behind an entry
        that ends it, as on non-decreasing times in a documented sort order. */
    method RunQuery(lower: string -> string, f: Query.Filter, limit: int, offset: int, order: Query.Order)
      returns (results: seq<Entry>)
      ensures var test := Query.FieldTest(lower, f);
        && results == Query.Scan(test, f, order, Query.Visited(entries, order), offset, limit)
        && (!Query.Hides(test, f, order, Query.Visited(entries, order)) ==>
             results == Query.QueryMeaning(test, f, entries, order, offset, limit))
        && (Query.NonDecreasing(entries) && !order.Other? ==>
             results == Query.QueryMeaning(test, f, entries, order, offset, limit))
      ensures forall e | e in results :: e in entries && Answers.Wanted(lower, f, e.content)
      ensures Query.NonDecreasing(entries) && !order.Other? && offset == 0 && limit == |entries| ==>
        forall e | e in entries && Answers.Wanted(lower, f, e.content) :: e in results
    {
      var test := Query.FieldTest(lower, f);
      results := Query.ScanEntries(test, f, order, Query.Visited(entries, order), offset, limit);
      Query.ExactIffNothingHidden(test, f, order, entries);
      if Query.NonDecreasing(entries) && !order.Other? {
        Query.OrderedTimesHideNothing(test, f, order, entries);
      }
      forall e
        ensures e in results ==> e in entries && Answers.Wanted(lower, f, e.content)
        ensures Query.NonDecreasing(entries) && !order.Other? && offset == 0 && limit == |entries| ==>
          (e in entries && Answers.Wanted(lower, f, e.content) ==> e in results)
      {
        HoldsIfWanted(lower, f, order, entries, offset, limit, results, e);
      }
    }

    /** Overwrites the file with the whole log; the tracker is not touched. */
    method ExportJsonl(f: ExportFile)
      modifies f`lines, `dirty
      ensures Archived(f) == ExportedWhole(old(Archived(f))) && !dirty
    {
      f.lines := [];
      for i := 0 to |entries|
        invariant f.lines == entries[..i]
      {
        f.lines := f.lines + [entries[i]];
      }
      dirty := false;
    }

    /** Appends the entries newer than the tracker and moves the tracker to the last entry. */
    method ExportIncremental(f: ExportFile)
      modifies f
      ensures Archived(f) == ExportedIncrementally(old(Archived(f)))
    {
      var lastExported := 0;
      if f.tracker.Some? {
        lastExported := f.tracker.value;
      }
      var newEntries := EntriesSince(lastExported);
      if newEntries == [] {
        return;
      }
      f.lines := f.lines + newEntries;
      f.tracker := Some(entries[|entries| - 1].sequence);
    }

    method EntriesSince(last: int) returns (newEntries: seq<Entry>)
      ensures newEntries == Newer(entries, last)
    {
      newEntries := [];
      assert entries[0..] == entries;
      for i := 0 to |entries|
        invariant newEntries + Newer(entries[i..], last) == Newer(entries, last)
      {
        NewerStep(entries, last, i);
        if entries[i].sequence > last {
          newEntries := newEntries + [entries[i]];
        }
      }
    }

    /** Reads and checks line by line; the log ends as `ImportOutcome` says. */
    method ImportJsonl(lines: seq<Line>) returns (ok: bool)
      requires Valid()
      modifies `entries, `index
      ensures Valid()
      ensures (entries, ok) == ImportOutcome(s, old(entries), lines)
      ensures old(ValidChain(s, entries)) ==> ValidChain(s, entries) && old(entries) <= entries
    {
      if ValidChain(s, entries) {
        ghost var k := ImportNeverDamages(s, entries, lines);
      }
      ghost var start := entries;
      for lineNum := 0 to |lines|
        invariant Valid()
        invariant Absorb(s, entries, lines[lineNum..]) == Absorb(s, start, lines)
      {
        var line := lines[lineNum];
        AbsorbStep(s, entries, lines, lineNum);
        if line.Blank? {
          continue;
        }
        if line.NotJson? {
          return false;
        }
        if line.FieldsMissing? {
          return false;
        }
        var entry := line.entry;
        if s.detailsSize(entry.content.details) > MAX_DETAILS {
          return false;
        }
        if entry.sequence != |entries| + 1 {
          return false;
        }
        var lastHash := LastHash();
        if entry.content.prevHash != lastHash {
          return false;
        }
        if entry.entryHash != s.hash(s.text(entry.content)) {
          return false;
        }
        entries := entries + [entry];
        index := index[entry.sequence := |entries| - 1];
      }
      var result := VerifyChain();
      if !result.Intact? {
        entries := [];
        index := map[];
        return false;
      }
      return true;
    }
  }

  lemma HoldsIfWanted(lower: string -> string, f: Query.Filter, order: Query.Order, entries: seq<Entry>,
                      offset: int, limit: int, results: seq<Entry>, e: Entry)
    requires results == Answers.Answer(lower, f, order, entries, offset, limit)
    ensures e in results ==> e in entries && Answers.Wanted(lower, f, e.content)
    ensures Query.NonDecreasing(entries) && !order.Other? && offset == 0 && limit == |entries| ==>
      (e in entries && Answers.Wanted(lower, f, e.content) ==> e in results)
  {
    if e in results {
      Answers.AnswerIsWanted(lower, f, order, entries, offset, limit, e);
    }
    if Query.NonDecreasing(entries) && !order.Other? && offset == 0 && limit == |entries| {
      Answers.AnswerIffWanted(lower, f, order, entries, e);
    }
  }
}
