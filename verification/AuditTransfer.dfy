/** Recording, exporting and importing an audit log, as functions on its entries and on an export file. */
module AuditTransfer {
  import opened Prelude
  import opened AuditChain

  /** The arguments of `record`; absent details become the empty dictionary. */
  datatype Request = Request(
    category: string,
    severity: string,
    event: string,
    agentId: Option<string>,
    taskId: Option<string>,
    details: Option<string>)

  function Sealed(s: Scheme, before: seq<Entry>, now: int, r: Request): (e: Entry)
    ensures Follows(s, before, e)
  {
    var details := if r.details.Some? then r.details.value else "{}";
    var c := Content(now, r.category, r.severity, r.event, r.agentId, r.taskId, details, Head(before));
    Entry(c, Digest(s, c), |before| + 1)
  }

  // ----- Import -----

  /** A line of a file, once stripped and parsed. */
  datatype Line = Blank | NotJson | FieldsMissing | Parsed(entry: Entry)

  const MAX_DETAILS: nat := 10000

  predicate Accepts(s: Scheme, entries: seq<Entry>, line: Line) {
    line.Parsed? && s.detailsSize(line.entry.content.details) <= MAX_DETAILS && Follows(s, entries, line.entry)
  }

  /** Entries after reading the lines up to the first rejected one, and whether there was none. */
  function Absorb(s: Scheme, entries: seq<Entry>, lines: seq<Line>): (seq<Entry>, bool)
    decreases |lines|
  {
    if lines == [] then (entries, true)
    else if lines[0].Blank? then Absorb(s, entries, lines[1..])
    else if Accepts(s, entries, lines[0]) then Absorb(s, entries + [lines[0].entry], lines[1..])
    else (entries, false)
  }

  /** The whole import: a last verification clears the log when it fails. */
  function ImportOutcome(s: Scheme, entries: seq<Entry>, lines: seq<Line>): (seq<Entry>, bool) {
    var (absorbed, all) := Absorb(s, entries, lines);
    if !all then (absorbed, false)
    else if ValidChain(s, absorbed) then (absorbed, true)
    else ([], false)
  }

  function Records(lines: seq<Line>): seq<Entry> {
    if lines == [] then []
    else if lines[0].Parsed? then [lines[0].entry] + Records(lines[1..])
    else Records(lines[1..])
  }

  /** `k` lines are read and then the reading stops: at the end of the file or at a rejected line. */
  ghost predicate StopsAfter(s: Scheme, entries: seq<Entry>, lines: seq<Line>, k: nat) {
    && k <= |lines|
    && (forall j | 0 <= j < k :: lines[j].Blank? || Accepts(s, entries + Records(lines[..j]), lines[j]))
    && (k < |lines| ==> !lines[k].Blank? && !Accepts(s, entries + Records(lines[..k]), lines[k]))
  }

  lemma {:induction false} AbsorbsUpToRejection(s: Scheme, entries: seq<Entry>, lines: seq<Line>) returns (k: nat)
    ensures StopsAfter(s, entries, lines, k)
    ensures Absorb(s, entries, lines) == (entries + Records(lines[..k]), k == |lines|)
    decreases |lines|
  {
    assert entries + Records(lines[..0]) == entries;
    if lines == [] {
      k := 0;
    } else if lines[0].Blank? || Accepts(s, entries, lines[0]) {
      var entries' := entries + Records([lines[0]]);
      assert Records([lines[0]]) == if lines[0].Parsed? then [lines[0].entry] else [];
      var k' := AbsorbsUpToRejection(s, entries', lines[1..]);
      k := k' + 1;
      forall j | 0 <= j <= k'
        ensures entries + Records(lines[..j + 1]) == entries' + Records(lines[1..][..j])
        ensures lines[..j + 1][1..] == lines[1..][..j]
      {
        RecordsOfCons(lines, j);
      }
      forall j | 0 <= j < k
        ensures lines[j].Blank? || Accepts(s, entries + Records(lines[..j]), lines[j])
      {
        if j > 0 {
          assert lines[j] == lines[1..][j - 1];
          assert entries + Records(lines[..j - 1 + 1]) == entries' + Records(lines[1..][..j - 1]);
        }
      }
    } else {
      k := 0;
    }
  }

  lemma RecordsOfCons(lines: seq<Line>, j: nat)
    requires j < |lines|
    ensures lines[..j + 1][1..] == lines[1..][..j]
    ensures Records(lines[..j + 1]) == Records([lines[0]]) + Records(lines[1..][..j])
  {
  }

  lemma {:induction false} AbsorbKeepsValidity(s: Scheme, entries: seq<Entry>, lines: seq<Line>)
    ensures ValidChain(s, Absorb(s, entries, lines).0) <==> ValidChain(s, entries)
    decreases |lines|
  {
    if lines != [] {
      if lines[0].Blank? {
        AbsorbKeepsValidity(s, entries, lines[1..]);
      } else if Accepts(s, entries, lines[0]) {
        ValidAppend(s, entries, lines[0].entry);
        AbsorbKeepsValidity(s, entries + [lines[0].entry], lines[1..]);
      }
    }
  }

  /** An import never damages a valid log: it ends as the old log followed by the records before the first
      rejected line, still valid, and the answer is True exactly when no line was rejected. */
  lemma ImportNeverDamages(s: Scheme, entries: seq<Entry>, lines: seq<Line>) returns (k: nat)
    requires ValidChain(s, entries)
    ensures StopsAfter(s, entries, lines, k)
    ensures ImportOutcome(s, entries, lines) == (entries + Records(lines[..k]), k == |lines|)
    ensures ValidChain(s, ImportOutcome(s, entries, lines).0)
  {
    k := AbsorbsUpToRejection(s, entries, lines);
    AbsorbKeepsValidity(s, entries, lines);
  }

  predicate Clears(s: Scheme, entries: seq<Entry>, lines: seq<Line>) {
    Absorb(s, entries, lines).1 && !ValidChain(s, Absorb(s, entries, lines).0)
  }

  /** The clearing branch, which leaves nothing and answers False, runs exactly when every line is accepted on top of a
      log that was already broken; otherwise the accepted records stay. */
  lemma ClearsIffAlreadyBroken(s: Scheme, entries: seq<Entry>, lines: seq<Line>)
    ensures Clears(s, entries, lines) <==> Absorb(s, entries, lines).1 && !ValidChain(s, entries)
    ensures ImportOutcome(s, entries, lines)
         == if Clears(s, entries, lines) then ([], false) else Absorb(s, entries, lines)
  {
    AbsorbKeepsValidity(s, entries, lines);
  }

  /** What one line does to a valid log: a record is added exactly when its details print within 10000 characters, its
      number is the next one, and link and hash are right; a blank line does nothing, and any other is rejected. */
  lemma OneLineImport(s: Scheme, entries: seq<Entry>, line: Line)
    requires ValidChain(s, entries)
    ensures ImportOutcome(s, entries, [line])
         == match line
            case Blank => (entries, true)
            case NotJson => (entries, false)
            case FieldsMissing => (entries, false)
            case Parsed(e) =>
              if s.detailsSize(e.content.details) <= 10000 && e.sequence == |entries| + 1
                 && e.content.prevHash == Head(entries) && e.entryHash == s.hash(s.text(e.content))
              then (entries + [e], true) else (entries, false)
  {
    AbsorbStep(s, entries, [line], 0);
    assert [line][0..] == [line] && [line][1..] == [];
    if line.Parsed? {
      ValidAppend(s, entries, line.entry);
      assert Absorb(s, entries + [line.entry], []) == (entries + [line.entry], true);
    } else {
      assert Absorb(s, entries, []) == (entries, true);
    }
  }

  // ----- Export -----

  function Lines(entries: seq<Entry>): (lines: seq<Line>)
    ensures |lines| == |entries|
  {
    seq(|entries|, i requires 0 <= i < |entries| => Parsed(entries[i]))
  }

  function Reread(s: Scheme, e: Entry): Entry {
    e.(content := e.content.(details := s.reread(e.content.details)))
  }

  /** The records that reading an export of the entries yields. */
  function ReadBack(s: Scheme, entries: seq<Entry>): (records: seq<Entry>)
    ensures |records| == |entries|
  {
    seq(|entries|, i requires 0 <= i < |entries| => Reread(s, entries[i]))
  }

  predicate Small(s: Scheme, e: Entry) {
    s.detailsSize(e.content.details) <= MAX_DETAILS
  }

  /** The details are not too large and are the same when read back. */
  predicate Survives(s: Scheme, e: Entry) {
    Small(s, e) && Reread(s, e) == e
  }

  function FirstWithout(fine: Entry -> bool, entries: seq<Entry>): (k: nat)
    ensures k <= |entries|
    ensures forall i | 0 <= i < k :: fine(entries[i])
    ensures k < |entries| ==> !fine(entries[k])
  {
    if entries == [] || !fine(entries[0]) then 0 else 1 + FirstWithout(fine, entries[1..])
  }

  /** The position of the first record whose details an import refuses. */
  function FirstLarge(s: Scheme, entries: seq<Entry>): (k: nat)
    ensures k <= |entries|
    ensures forall i | 0 <= i < k :: Small(s, entries[i])
    ensures k < |entries| ==> !Small(s, entries[k])
  {
    FirstWithout(e => Small(s, e), entries)
  }

  /** The position of the first entry that does not survive export and import. */
  function FirstLost(s: Scheme, entries: seq<Entry>): (k: nat)
    ensures k <= |entries|
    ensures forall i | 0 <= i < k :: Survives(s, entries[i])
    ensures k < |entries| ==> !Survives(s, entries[k])
  {
    FirstWithout(e => Survives(s, e), entries)
  }

  /** Wherever reading back changes the details, it changes the digest. */
  predicate ChangesShow(s: Scheme, entries: seq<Entry>) {
    forall i | 0 <= i < |entries| && Reread(s, entries[i]) != entries[i] ::
      Digest(s, Reread(s, entries[i]).content) != Digest(s, entries[i].content)
  }

  lemma ChangesShowUnlessCollision(s: Scheme, entries: seq<Entry>)
    requires Sound(s)
    ensures ChangesShow(s, entries) || CollisionIn(s.hash, Texts(s, entries) + Texts(s, ReadBack(s, entries)))
  {
    var texts := Texts(s, entries) + Texts(s, ReadBack(s, entries));
    if !CollisionIn(s.hash, texts) {
      forall i | 0 <= i < |entries| && Reread(s, entries[i]) != entries[i]
        ensures Digest(s, Reread(s, entries[i]).content) != Digest(s, entries[i].content)
      {
        var x, y := s.text(Reread(s, entries[i]).content), s.text(entries[i].content);
        assert y in Texts(s, entries) && ReadBack(s, entries)[i] == Reread(s, entries[i]);
        assert x in Texts(s, ReadBack(s, entries));
        if s.hash(x) == s.hash(y) {
          NoCollision(s.hash, texts, x, y);
        }
      }
    }
  }

  lemma {:induction false} AbsorbPrefix(s: Scheme, entries: seq<Entry>, records: seq<Entry>, i: nat, k: nat)
    requires ValidChain(s, entries) && i <= k <= |entries| == |records|
    requires forall j | 0 <= j < k :: records[j] == entries[j] && Small(s, entries[j])
    ensures Absorb(s, entries[..i], Lines(records)[i..]) == Absorb(s, entries[..k], Lines(records)[k..])
    decreases k - i
  {
    if i < k {
      assert entries[..i + 1] == entries[..i] + [entries[i]];
      assert Follows(s, entries[..i], entries[i]);
      AbsorbStep(s, entries[..i], Lines(records), i);
      AbsorbPrefix(s, entries, records, i + 1, k);
    }
  }

  /** One turn of the loop. */
  lemma AbsorbStep(s: Scheme, entries: seq<Entry>, lines: seq<Line>, i: nat)
    requires i < |lines|
    ensures Absorb(s, entries, lines[i..])
         == if lines[i].Blank? then Absorb(s, entries, lines[i + 1..])
            else if Accepts(s, entries, lines[i]) then Absorb(s, entries + [lines[i].entry], lines[i + 1..])
            else (entries, false)
  {
    assert lines[i..][1..] == lines[i + 1..];
  }

  /** Records that agree with a valid log up to one that is refused import as the log up to there. */
  lemma ImportsPrefix(s: Scheme, entries: seq<Entry>, records: seq<Entry>, k: nat)
    requires ValidChain(s, entries) && k <= |entries| == |records|
    requires forall j | 0 <= j < k :: records[j] == entries[j] && Small(s, entries[j])
    requires k < |entries| ==> !Accepts(s, entries[..k], Parsed(records[k]))
    ensures ImportOutcome(s, [], Lines(records)) == (entries[..k], k == |entries|)
  {
    AbsorbPrefix(s, entries, records, 0, k);
    assert Lines(records)[0..] == Lines(records) && entries[..0] == [];
    if k < |entries| {
      AbsorbStep(s, entries[..k], Lines(records), k);
    } else {
      assert Lines(records)[k..] == [];
    }
    PrefixValid(s, entries, k);
  }

  /** A valid log written out and imported into an empty one comes back entry by entry, up to the first entry
      whose details are oversized or change when read back; the import says True exactly when there is none. */
  lemma ExportImportRoundTrip(s: Scheme, entries: seq<Entry>)
    requires ValidChain(s, entries) && ChangesShow(s, entries)
    ensures ImportOutcome(s, [], Lines(ReadBack(s, entries)))
         == (entries[..FirstLost(s, entries)], FirstLost(s, entries) == |entries|)
  {
    var k, records := FirstLost(s, entries), ReadBack(s, entries);
    if k < |entries| {
      assert Follows(s, entries[..k], entries[k]);
    }
    ImportsPrefix(s, entries, records, k);
  }

  /** The files of records that an empty log imports are exactly the valid chains without oversized details. */
  lemma ImportableIffValid(s: Scheme, file: seq<Entry>)
    ensures ImportOutcome(s, [], Lines(file)).1 <==> ValidChain(s, file) && FirstLarge(s, file) == |file|
  {
    if ValidChain(s, file) {
      ImportsPrefix(s, file, file, FirstLarge(s, file));
    } else {
      var k := AbsorbsUpToRejection(s, [], Lines(file));
      AbsorbKeepsValidity(s, [], Lines(file));
      assert Lines(file)[..|file|] == Lines(file);
      RecordsOfLines(file);
      assert ValidChain(s, []);
      assert k == |file| ==> Absorb(s, [], Lines(file)).0 == file;
    }
  }

  // ----- Incremental export -----

  /** A log together with one export file and the sequence number stored beside it. */
  datatype Archive = Archive(entries: seq<Entry>, file: seq<Entry>, tracker: Option<int>)

  function LastExported(tracker: Option<int>): int {
    if tracker.Some? then tracker.value else 0
  }

  function Newer(entries: seq<Entry>, last: int): seq<Entry> {
    if entries == [] then []
    else (if entries[0].sequence > last then [entries[0]] else []) + Newer(entries[1..], last)
  }

  function ExportedIncrementally(a: Archive): Archive {
    var pending := Newer(a.entries, LastExported(a.tracker));
    if pending == [] then a
    else
      assert a.entries != [];
      a.(file := a.file + pending, tracker := Some(a.entries[|a.entries| - 1].sequence))
  }

  function ExportedWhole(a: Archive): Archive {
    a.(file := a.entries)
  }

  lemma {:induction false} NewerIsSuffix(s: Scheme, entries: seq<Entry>, last: nat, i: nat)
    requires ValidChain(s, entries) && last <= |entries| && i <= |entries|
    ensures Newer(entries[i..], last) == entries[if i < last then last else i..]
    decreases |entries| - i
  {
    if i < |entries| {
      assert Follows(s, entries[..i], entries[i]);
      NewerStep(entries, last, i);
      NewerIsSuffix(s, entries, last, i + 1);
      assert i >= last ==> [entries[i]] + entries[i + 1..] == entries[i..];
    }
  }

  lemma NewerStep(entries: seq<Entry>, last: int, i: nat)
    requires i < |entries|
    ensures Newer(entries[i..], last)
         == (if entries[i].sequence > last then [entries[i]] else []) + Newer(entries[i + 1..], last)
  {
    assert entries[i..][1..] == entries[i + 1..];
  }

  /** The file is exactly the prefix of the log that the tracker says was written. */
  predicate Synced(s: Scheme, a: Archive) {
    && ValidChain(s, a.entries)
    && 0 <= LastExported(a.tracker) <= |a.entries|
    && a.file == a.entries[..LastExported(a.tracker)]
  }

  datatype Op =
    | DoRecord(now: int, request: Request)
    | DoImport(lines: seq<Line>)
    | DoExportIncremental

  function Step(s: Scheme, a: Archive, op: Op): Archive {
    match op
    case DoRecord(now, r) => a.(entries := a.entries + [Sealed(s, a.entries, now, r)])
    case DoImport(lines) => a.(entries := ImportOutcome(s, a.entries, lines).0)
    case DoExportIncremental => ExportedIncrementally(a)
  }

  function Run(s: Scheme, a: Archive, ops: seq<Op>): Archive
    decreases |ops|
  {
    if ops == [] then a else Run(s, Step(s, a, ops[0]), ops[1..])
  }

  lemma GrowingStaysSynced(s: Scheme, a: Archive, entries: seq<Entry>)
    requires Synced(s, a) && ValidChain(s, entries) && a.entries <= entries
    ensures Synced(s, a.(entries := entries))
  {
    assert entries[..|a.entries|] == a.entries;
    assert entries[..LastExported(a.tracker)] == a.entries[..LastExported(a.tracker)];
  }

  lemma IncrementalExportComplete(s: Scheme, a: Archive)
    requires Synced(s, a)
    ensures var a' := ExportedIncrementally(a);
      Synced(s, a') && a'.file == a.entries && a'.entries == a.entries
  {
    var last := LastExported(a.tracker);
    AllNewer(s, a.entries, last);
    assert a.entries[..last] + a.entries[last..] == a.entries;
    assert a.entries[..|a.entries|] == a.entries;
    LastSequence(s, a.entries);
  }

  lemma AllNewer(s: Scheme, entries: seq<Entry>, last: nat)
    requires ValidChain(s, entries) && last <= |entries|
    ensures Newer(entries, last) == entries[last..]
  {
    NewerIsSuffix(s, entries, last, 0);
    assert entries[0..] == entries;
  }

  lemma LastSequence(s: Scheme, entries: seq<Entry>)
    requires ValidChain(s, entries)
    ensures entries != [] ==> entries[|entries| - 1].sequence == |entries|
  {
    if entries != [] {
      assert Follows(s, entries[..|entries| - 1], entries[|entries| - 1]);
    }
  }

  lemma {:induction false} StepStaysSynced(s: Scheme, a: Archive, op: Op)
    requires Synced(s, a)
    ensures Synced(s, Step(s, a, op))
  {
    match op
    case DoRecord(now, r) =>
      var e := Sealed(s, a.entries, now, r);
      ValidAppend(s, a.entries, e);
      GrowingStaysSynced(s, a, a.entries + [e]);
    case DoImport(lines) =>
      var k := ImportNeverDamages(s, a.entries, lines);
      GrowingStaysSynced(s, a, ImportOutcome(s, a.entries, lines).0);
    case DoExportIncremental =>
      IncrementalExportComplete(s, a);
  }

  lemma {:induction false} RunStaysSynced(s: Scheme, a: Archive, ops: seq<Op>)
    requires Synced(s, a)
    ensures Synced(s, Run(s, a, ops))
    decreases |ops|
  {
    if ops != [] {
      StepStaysSynced(s, a, ops[0]);
      RunStaysSynced(s, Step(s, a, ops[0]), ops[1..]);
    }
  }

  const EMPTY_ARCHIVE := Archive([], [], None)

  /** After any interleaving of records, imports and incremental exports, the file is the exported prefix of
      a valid log, and importing it into an empty log rebuilds that prefix, up to the first entry whose details are
      oversized or change when read back. */
  lemma IncrementalFileRestoresPrefix(s: Scheme, ops: seq<Op>)
    ensures var a := Run(s, EMPTY_ARCHIVE, ops);
      && Synced(s, a)
      && (ChangesShow(s, a.file) ==>
            ImportOutcome(s, [], Lines(ReadBack(s, a.file)))
            == (a.file[..FirstLost(s, a.file)], FirstLost(s, a.file) == |a.file|))
  {
    var a := Run(s, EMPTY_ARCHIVE, ops);
    RunStaysSynced(s, EMPTY_ARCHIVE, ops);
    PrefixValid(s, a.entries, LastExported(a.tracker));
    if ChangesShow(s, a.file) {
      ExportImportRoundTrip(s, a.file);
    }
  }

  /** A whole-log export replaces whatever was in the file by the log, and touches nothing else: read into an empty
      log, the file rebuilds the log. */
  lemma WholeExportReplacesFile(s: Scheme, a: Archive)
    requires ValidChain(s, a.entries) && ChangesShow(s, a.entries)
    ensures var a' := ExportedWhole(a);
      && a'.entries == a.entries && a'.tracker == a.tracker
      && ImportOutcome(s, [], Lines(ReadBack(s, a'.file)))
         == (a.entries[..FirstLost(s, a.entries)], FirstLost(s, a.entries) == |a.entries|)
  {
    ExportImportRoundTrip(s, a.entries);
  }

  /** A whole-log export to the incremental file leaves the tracker behind.  That is harmless exactly when
      the tracker was up to date; otherwise the next incremental export repeats entries and the file can
      no longer be imported. */
  lemma WholeExportBreaksStaleTracker(s: Scheme, a: Archive)
    requires Synced(s, a)
    ensures Synced(s, ExportedWhole(a)) <==> LastExported(a.tracker) == |a.entries|
    ensures LastExported(a.tracker) < |a.entries| ==>
      !ImportOutcome(s, [], Lines(ReadBack(s, ExportedIncrementally(ExportedWhole(a)).file))).1
  {
    var last, n := LastExported(a.tracker), |a.entries|;
    if last < n {
      AllNewer(s, a.entries, last);
      RepeatedEntriesRejected(s, a.entries, last);
    } else {
      assert a.entries[..n] == a.entries;
    }
  }

  lemma RepeatedEntriesRejected(s: Scheme, entries: seq<Entry>, last: nat)
    requires ValidChain(s, entries) && last < |entries|
    ensures !ImportOutcome(s, [], Lines(ReadBack(s, entries + entries[last..]))).1
  {
    var n := |entries|;
    var records := ReadBack(s, entries + entries[last..]);
    assert Follows(s, entries[..last], entries[last]) && records[n].sequence == last + 1;
    assert !Follows(s, records[..n], records[n]);
    ImportableIffValid(s, records);
  }

  lemma {:induction false} RecordsOfLines(entries: seq<Entry>)
    ensures Records(Lines(entries)) == entries
    decreases |entries|
  {
    if entries != [] {
      assert Lines(entries)[1..] == Lines(entries[1..]);
      RecordsOfLines(entries[1..]);
    }
  }
}
