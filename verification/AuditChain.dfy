/** The hash chain of the audit log: what `verify_chain` accepts, and what an accepted chain commits to. */
module AuditChain {
  import opened Prelude

  /** The fields of an entry that are hashed.  The sequence number is not among them.
      Times are integers: finite doubles embed in `int` with their order, zero going to zero.
      `details` is the canonical JSON text of the dictionary. */
  datatype Content = Content(
    timestamp: int,
    category: string,
    severity: string,
    event: string,
    agentId: Option<string>,
    taskId: Option<string>,
    details: string,
    prevHash: string)

  datatype Entry = Entry(content: Content, entryHash: string, sequence: int)

  /** What the log takes from its environment: SHA-256 in hexadecimal, the canonical JSON text of the
      hashed fields, the printed length of the details, and what becomes of the canonical text of details when
      they are written to a file and read back. */
  datatype Scheme = Scheme(
    hash: string -> string,
    text: Content -> string,
    detailsSize: string -> nat,
    reread: string -> string)

  predicate IsHexDigit(c: char) {
    '0' <= c <= '9' || 'a' <= c <= 'f'
  }

  predicate IsDigest(x: string) {
    |x| == 64 && forall i | 0 <= i < 64 :: IsHexDigit(x[i])
  }

  ghost predicate Hexadecimal(hash: string -> string) {
    forall x :: IsDigest(hash(x))
  }

  /** Digests are 64 hexadecimal digits; the text of an entry is a JSON object and determines its fields. */
  ghost predicate Sound(s: Scheme) {
    && Hexadecimal(s.hash)
    && (forall c, d :: s.text(c) == s.text(d) ==> c == d)
    && (forall c :: |s.text(c)| > 0 && s.text(c)[0] == '{')
  }

  /** Two different members of a given finite set of texts share a digest.  Every fixed-width hash has
      collisions somewhere, so theorems name the very texts among which one would have to be. */
  ghost predicate CollisionIn(hash: string -> string, texts: set<string>) {
    exists x, y {:trigger Collide(hash, x, y)} :: x in texts && y in texts && Collide(hash, x, y)
  }

  predicate Collide(hash: string -> string, x: string, y: string) {
    x != y && hash(x) == hash(y)
  }

  lemma NoCollision(hash: string -> string, texts: set<string>, x: string, y: string)
    requires !CollisionIn(hash, texts)
    requires x in texts && y in texts && hash(x) == hash(y)
    ensures x == y
  {
    assert !Collide(hash, x, y);
  }

  // ----- The chain -----

  /** "GENESIS" four times. */
  const GENESIS_HASH := "GENESISGENESISGENESISGENESIS"

  function Digest(s: Scheme, c: Content): string {
    s.hash(s.text(c))
  }

  function Head(entries: seq<Entry>): string {
    if entries == [] then GENESIS_HASH else entries[|entries| - 1].entryHash
  }

  /** Entry `e` may stand right after the entries `before`. */
  predicate Follows(s: Scheme, before: seq<Entry>, e: Entry) {
    && e.sequence == |before| + 1
    && e.content.prevHash == Head(before)
    && e.entryHash == Digest(s, e.content)
  }

  predicate ValidChain(s: Scheme, entries: seq<Entry>) {
    forall i {:trigger entries[..i]} | 0 <= i < |entries| :: Follows(s, entries[..i], entries[i])
  }

  /** The entry texts that verifying the chain hashes. */
  function Texts(s: Scheme, entries: seq<Entry>): set<string> {
    set i | 0 <= i < |entries| :: s.text(entries[i].content)
  }

  lemma ValidAppend(s: Scheme, entries: seq<Entry>, e: Entry)
    ensures ValidChain(s, entries + [e]) <==> ValidChain(s, entries) && Follows(s, entries, e)
  {
    var longer := entries + [e];
    assert forall i | 0 <= i <= |entries| :: longer[..i] == entries[..i];
    assert entries[..|entries|] == entries;
    if ValidChain(s, longer) {
      assert Follows(s, longer[..|entries|], longer[|entries|]);
      forall i | 0 <= i < |entries|
        ensures Follows(s, entries[..i], entries[i])
      {
        assert Follows(s, longer[..i], longer[i]);
      }
    }
  }

  /** Dropping a tail is not noticed: commitments have to name a head hash or a Merkle root. */
  lemma PrefixValid(s: Scheme, entries: seq<Entry>, k: nat)
    requires ValidChain(s, entries) && k <= |entries|
    ensures ValidChain(s, entries[..k])
  {
    forall i | 0 <= i < k
      ensures Follows(s, entries[..k][..i], entries[..k][i])
    {
      assert entries[..k][..i] == entries[..i];
      assert Follows(s, entries[..i], entries[i]);
    }
  }

  lemma CollisionGrows(hash: string -> string, small: set<string>, big: set<string>)
    requires small <= big
    ensures CollisionIn(hash, small) ==> CollisionIn(hash, big)
  {
  }

  /** The head hash commits to the whole history, length included. */
  lemma HeadCommits(s: Scheme, a: seq<Entry>, b: seq<Entry>)
    requires Sound(s)
    requires ValidChain(s, a) && ValidChain(s, b)
    requires Head(a) == Head(b)
    ensures a == b || CollisionIn(s.hash, Texts(s, a) + Texts(s, b))
  {
    if !CollisionIn(s.hash, Texts(s, a) + Texts(s, b)) {
      HistoryDetermined(s, a, b, Texts(s, a) + Texts(s, b));
    }
  }

  lemma {:induction false} HistoryDetermined(s: Scheme, a: seq<Entry>, b: seq<Entry>, texts: set<string>)
    requires Sound(s)
    requires ValidChain(s, a) && ValidChain(s, b)
    requires Head(a) == Head(b)
    requires Texts(s, a) + Texts(s, b) <= texts && !CollisionIn(s.hash, texts)
    ensures a == b
    decreases |a|
  {
    HeadLength(s, a);
    HeadLength(s, b);
    if a != [] {
      var a', b' := a[..|a| - 1], b[..|b| - 1];
      LastContent(s, a, b, texts);
      assert Head(a') == Head(b');
      PrefixTexts(s, a, |a'|);
      PrefixTexts(s, b, |b'|);
      PrefixValid(s, a, |a'|);
      PrefixValid(s, b, |b'|);
      HistoryDetermined(s, a', b', texts);
      SameBySnoc(a, b);
    }
  }

  lemma SameBySnoc(a: seq<Entry>, b: seq<Entry>)
    requires a != [] && b != [] && a[..|a| - 1] == b[..|b| - 1] && a[|a| - 1] == b[|b| - 1]
    ensures a == b
  {
    assert a == a[..|a| - 1] + [a[|a| - 1]] && b == b[..|b| - 1] + [b[|b| - 1]];
  }

  lemma PrefixTexts(s: Scheme, entries: seq<Entry>, k: nat)
    requires k <= |entries|
    ensures Texts(s, entries[..k]) <= Texts(s, entries)
  {
  }

  lemma LastContent(s: Scheme, a: seq<Entry>, b: seq<Entry>, texts: set<string>)
    requires Sound(s) && a != [] && b != []
    requires ValidChain(s, a) && ValidChain(s, b) && Head(a) == Head(b)
    requires Texts(s, a) + Texts(s, b) <= texts && !CollisionIn(s.hash, texts)
    ensures a[|a| - 1].content == b[|b| - 1].content
    ensures Follows(s, a[..|a| - 1], a[|a| - 1]) && Follows(s, b[..|b| - 1], b[|b| - 1])
  {
    assert Follows(s, a[..|a| - 1], a[|a| - 1]) && Follows(s, b[..|b| - 1], b[|b| - 1]);
    var x, y := s.text(a[|a| - 1].content), s.text(b[|b| - 1].content);
    assert x in Texts(s, a) && y in Texts(s, b);
    NoCollision(s.hash, texts, x, y);
  }

  lemma HeadLength(s: Scheme, entries: seq<Entry>)
    requires Sound(s) && ValidChain(s, entries)
    ensures entries == [] ==> |Head(entries)| == 28
    ensures entries != [] ==> IsDigest(Head(entries))
  {
    if entries != [] {
      assert Follows(s, entries[..|entries| - 1], entries[|entries| - 1]);
    }
  }

  /** Whatever was edited, inserted, deleted, swapped, renumbered or resealed before an untouched final
      entry, the changed log fails verification. */
  lemma TamperingDetected(s: Scheme, original: seq<Entry>, tampered: seq<Entry>)
    requires Sound(s) && ValidChain(s, original)
    requires original != [] && tampered != [] && tampered != original
    requires tampered[|tampered| - 1].entryHash == original[|original| - 1].entryHash
    ensures !ValidChain(s, tampered) || CollisionIn(s.hash, Texts(s, original) + Texts(s, tampered))
  {
    if ValidChain(s, tampered) {
      HeadCommits(s, original, tampered);
    }
  }

  /** The entry hashes of a valid chain are pairwise distinct. */
  lemma {:induction false} HashesDistinct(s: Scheme, a: seq<Entry>, i: nat, j: nat)
    requires Sound(s) && ValidChain(s, a) && i < j < |a|
    requires !CollisionIn(s.hash, Texts(s, a))
    ensures a[i].entryHash != a[j].entryHash
  {
    assert Follows(s, a[..i], a[i]) && Follows(s, a[..j], a[j]);
    if a[i].entryHash == a[j].entryHash {
      NoCollision(s.hash, Texts(s, a), s.text(a[i].content), s.text(a[j].content));
      assert Head(a[..i]) == Head(a[..j]);
      assert Follows(s, a[..j - 1], a[j - 1]);
      if i > 0 {
        HashesDistinct(s, a, i - 1, j - 1);
      }
      assert false;
    }
  }

  function Renumbered(entries: seq<Entry>): seq<Entry> {
    seq(|entries|, i requires 0 <= i < |entries| => entries[i].(sequence := i + 1))
  }

  /** Cutting a block out of a valid log, even with the rest renumbered, goes unnoticed exactly when the
      block is a tail. */
  lemma RemovalUnnoticedIffTail(s: Scheme, a: seq<Entry>, i: nat, j: nat)
    requires Sound(s) && ValidChain(s, a) && i < j <= |a|
    requires !CollisionIn(s.hash, Texts(s, a))
    ensures ValidChain(s, Renumbered(a[..i] + a[j..])) <==> j == |a|
  {
    if j == |a| {
      assert a[..i] + a[j..] == a[..i];
      PrefixValid(s, a, i);
      ValidIsNumbered(s, a[..i]);
    } else {
      InnerRemovalNoticed(s, a, i, j);
    }
  }

  lemma ValidIsNumbered(s: Scheme, a: seq<Entry>)
    requires ValidChain(s, a)
    ensures Renumbered(a) == a
  {
    forall k | 0 <= k < |a|
      ensures Renumbered(a)[k] == a[k]
    {
      assert Follows(s, a[..k], a[k]);
    }
  }

  lemma InnerRemovalNoticed(s: Scheme, a: seq<Entry>, i: nat, j: nat)
    requires Sound(s) && ValidChain(s, a) && i < j < |a|
    requires !CollisionIn(s.hash, Texts(s, a))
    ensures !ValidChain(s, Renumbered(a[..i] + a[j..]))
  {
    var cut := Renumbered(a[..i] + a[j..]);
    assert cut[i].content == a[j].content;
    assert i > 0 ==> cut[i - 1].entryHash == a[i - 1].entryHash;
    if ValidChain(s, cut) {
      assert Follows(s, cut[..i], cut[i]);
      assert Follows(s, a[..j], a[j]) && Follows(s, a[..j - 1], a[j - 1]);
      if i > 0 {
        HashesDistinct(s, a, i - 1, j - 1);
      }
      assert false;
    }
  }

  /** Putting another entry in the place of one goes unnoticed exactly when it is the last and the other is sealed
      after the same entries. */
  lemma ReplacementUnnoticedIff(s: Scheme, a: seq<Entry>, i: nat, e: Entry)
    requires Sound(s) && ValidChain(s, a) && i < |a| && e != a[i]
    requires !CollisionIn(s.hash, Texts(s, a) + {s.text(e.content)})
    ensures ValidChain(s, a[i := e]) <==> i == |a| - 1 && Follows(s, a[..i], e)
  {
    var b := a[i := e];
    assert b[..i] == a[..i];
    if i == |a| - 1 {
      assert b == a[..i] + [e];
      PrefixValid(s, a, i);
      ValidAppend(s, a[..i], e);
    } else if ValidChain(s, b) {
      assert Follows(s, b[..i], b[i]) && Follows(s, b[..i + 1], b[i + 1]);
      assert Follows(s, a[..i], a[i]) && Follows(s, a[..i + 1], a[i + 1]);
      NoCollision(s.hash, Texts(s, a) + {s.text(e.content)}, s.text(e.content), s.text(a[i].content));
      assert false;
    }
  }

  /** Putting one more entry into a valid log, even with the rest renumbered, goes unnoticed exactly when it is put
      at the end and sealed after the others. */
  lemma InsertionUnnoticedIff(s: Scheme, a: seq<Entry>, i: nat, e: Entry)
    requires Sound(s) && ValidChain(s, a) && i <= |a|
    requires !CollisionIn(s.hash, Texts(s, a) + {s.text(e.content)})
    ensures ValidChain(s, Renumbered(a[..i] + [e] + a[i..])) <==>
      i == |a| && Follows(s, a, e.(sequence := |a| + 1))
  {
    InsertedPrefix(s, a, i, e);
    if i == |a| {
      assert Renumbered(a[..i] + [e] + a[i..]) == a + [e.(sequence := |a| + 1)];
      ValidAppend(s, a, e.(sequence := |a| + 1));
    } else {
      InsertionNoticed(s, a, i, e);
    }
  }

  lemma InsertedPrefix(s: Scheme, a: seq<Entry>, i: nat, e: Entry)
    requires ValidChain(s, a) && i <= |a|
    ensures Renumbered(a[..i] + [e] + a[i..])[..i] == a[..i]
  {
    var longer := Renumbered(a[..i] + [e] + a[i..]);
    forall k | 0 <= k < i
      ensures longer[k] == a[k]
    {
      assert Follows(s, a[..k], a[k]);
    }
  }

  lemma InsertionNoticed(s: Scheme, a: seq<Entry>, i: nat, e: Entry)
    requires Sound(s) && ValidChain(s, a) && i < |a|
    requires !CollisionIn(s.hash, Texts(s, a) + {s.text(e.content)})
    ensures !ValidChain(s, Renumbered(a[..i] + [e] + a[i..]))
  {
    var longer := Renumbered(a[..i] + [e] + a[i..]);
    InsertedPrefix(s, a, i, e);
    if ValidChain(s, longer) {
      assert Follows(s, longer[..i], longer[i]) && Follows(s, longer[..i + 1], longer[i + 1]);
      assert Follows(s, a[..i], a[i]);
      assert Digest(s, e.content) == Head(a[..i]) == e.content.prevHash;
      if i > 0 {
        NotItsOwnSuccessor(s, a, i - 1, e.content);
      }
      assert false;
    }
  }

  /** No entry can be linked to an entry with its own digest. */
  lemma NotItsOwnSuccessor(s: Scheme, a: seq<Entry>, k: nat, c: Content)
    requires Sound(s) && ValidChain(s, a) && k < |a|
    requires !CollisionIn(s.hash, Texts(s, a) + {s.text(c)})
    requires c.prevHash == a[k].entryHash
    ensures Digest(s, c) != a[k].entryHash
  {
    assert Follows(s, a[..k], a[k]);
    if Digest(s, c) == a[k].entryHash {
      NoCollision(s.hash, Texts(s, a) + {s.text(c)}, s.text(c), s.text(a[k].content));
      assert Head(a[..k]) == a[k].entryHash;
      if k > 0 {
        CollisionGrows(s.hash, Texts(s, a), Texts(s, a) + {s.text(c)});
        HashesDistinct(s, a, k - 1, k);
      }
      assert false;
    }
  }

  // ----- verify_chain -----

  datatype Reason = SequenceGap | LinkMismatch | HashMismatch

  datatype Verdict = Intact | Broken(at: int, reason: Reason)

  /** The first check that entry `e` fails after `before`, in the order the checks are made. */
  function Complaint(s: Scheme, before: seq<Entry>, e: Entry): Option<Reason> {
    if e.sequence != |before| + 1 then Some(SequenceGap)
    else if e.content.prevHash != Head(before) then Some(LinkMismatch)
    else if e.entryHash != Digest(s, e.content) then Some(HashMismatch)
    else None
  }

  /** `k` is the position of the first entry that does not follow from the ones before it. */
  predicate FirstOffender(s: Scheme, entries: seq<Entry>, k: nat) {
    k < |entries| && ValidChain(s, entries[..k]) && !Follows(s, entries[..k], entries[k])
  }

  /** What verification says of a log: the complaint about the first entry that has one. */
  function VerdictOn(s: Scheme, entries: seq<Entry>): Verdict {
    if entries == [] then Intact
    else
      var n := |entries| - 1;
      var before := VerdictOn(s, entries[..n]);
      if before.Broken? then before
      else match Complaint(s, entries[..n], entries[n])
        case None => Intact
        case Some(reason) => Broken(entries[n].sequence, reason)
  }

  lemma {:induction false} VerdictIs(s: Scheme, entries: seq<Entry>, k: nat)
    requires k < |entries| && ValidChain(s, entries[..k]) && Complaint(s, entries[..k], entries[k]).Some?
    ensures VerdictOn(s, entries) == Broken(entries[k].sequence, Complaint(s, entries[..k], entries[k]).value)
    decreases |entries|
  {
    var n := |entries| - 1;
    if k < n {
      assert entries[..n][..k] == entries[..k];
      VerdictIs(s, entries[..n], k);
    } else {
      IntactIffValid(s, entries[..n]);
    }
  }

  lemma {:induction false} IntactIffValid(s: Scheme, entries: seq<Entry>)
    ensures VerdictOn(s, entries).Intact? <==> ValidChain(s, entries)
    decreases |entries|
  {
    if entries != [] {
      var n := |entries| - 1;
      assert entries == entries[..n] + [entries[n]];
      IntactIffValid(s, entries[..n]);
      ValidAppend(s, entries[..n], entries[n]);
    }
  }

  /** How verification reports the change of one entry of a valid log.  A changed number is a gap; a changed link, with
      the number kept, a broken link; with both kept, a hash that is not that of the fields is a mismatch, as it is when
      only fields or only the hash were changed; and an entry sealed again breaks the link of the next one, if any. */
  lemma ChangeReported(s: Scheme, a: seq<Entry>, i: nat, e: Entry)
    requires Sound(s) && ValidChain(s, a) && i < |a| && e != a[i]
    requires !CollisionIn(s.hash, Texts(s, a) + {s.text(e.content)})
    ensures VerdictOn(s, a[i := e])
         == if e.sequence != i + 1 then Broken(e.sequence, SequenceGap)
            else if e.content.prevHash != a[i].content.prevHash then Broken(i + 1, LinkMismatch)
            else if e.entryHash != s.hash(s.text(e.content)) then Broken(i + 1, HashMismatch)
            else if i + 1 < |a| then Broken(i + 2, LinkMismatch)
            else Intact
    ensures e.sequence == i + 1 && (e.entryHash == a[i].entryHash || e.content == a[i].content) ==>
      e.entryHash != s.hash(s.text(e.content))
  {
    var b := a[i := e];
    var text := s.text(e.content);
    assert b[..i] == a[..i] && Follows(s, a[..i], a[i]);
    PrefixValid(s, a, i);
    if e.entryHash == Digest(s, e.content) && e.entryHash == a[i].entryHash {
      NoCollision(s.hash, Texts(s, a) + {text}, text, s.text(a[i].content));
    }
    if Complaint(s, b[..i], b[i]).Some? {
      VerdictIs(s, b, i);
    } else {
      assert b[..i + 1] == a[..i] + [e];
      ValidAppend(s, a[..i], e);
      if i + 1 < |a| {
        assert Follows(s, a[..i + 1], a[i + 1]);
        VerdictIs(s, b, i + 1);
      } else {
        IntactIffValid(s, b);
        assert b == b[..i + 1];
      }
    }
  }
}
