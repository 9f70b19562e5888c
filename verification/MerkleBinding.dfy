/** Chain and tree together: the Merkle root of a valid log determines the log. */
module MerkleBinding {
  import opened AuditChain
  import opened MerkleTree

  const EMPTY_MARKER := "EMPTY_LOG"

  function Leaves(entries: seq<Entry>): (leaves: seq<string>)
    ensures |leaves| == |entries|
  {
    seq(|entries|, i requires 0 <= i < |entries| => entries[i].entryHash)
  }

  function LogRoot(s: Scheme, entries: seq<Entry>): string {
    if entries == [] then s.hash(EMPTY_MARKER) else Root(s.hash, Leaves(entries))
  }

  /** The proof for the entry at the 1-based position `sequence`; empty when there is no such entry. */
  function LogProof(s: Scheme, entries: seq<Entry>, sequence: int): seq<string> {
    if 1 <= sequence <= |entries| then Proof(s.hash, Leaves(entries), sequence - 1) else []
  }

  /** Every text hashed while the chain is verified and its root computed. */
  function Hashed(s: Scheme, entries: seq<Entry>): set<string> {
    Texts(s, entries) + {EMPTY_MARKER} + if entries == [] then {} else NodeTexts(s.hash, Leaves(entries))
  }

  /** Two valid logs with one root are one log, length and every field included. */
  lemma RootBindsLog(s: Scheme, a: seq<Entry>, b: seq<Entry>)
    requires Sound(s)
    requires ValidChain(s, a) && ValidChain(s, b)
    requires LogRoot(s, a) == LogRoot(s, b)
    ensures a == b || CollisionIn(s.hash, Hashed(s, a) + Hashed(s, b))
  {
    var texts := Hashed(s, a) + Hashed(s, b);
    if !CollisionIn(s.hash, texts) {
      if a == [] || b == [] {
        EmptyRootUnique(s, a, texts);
        EmptyRootUnique(s, b, texts);
      } else {
        LeavesDetermined(s, a, b, texts);
        HeadIsLastLeaf(a);
        HeadIsLastLeaf(b);
        HistoryDetermined(s, a, b, texts);
      }
    }
  }

  lemma HeadIsLastLeaf(entries: seq<Entry>)
    requires entries != []
    ensures Head(entries) == Leaves(entries)[|entries| - 1]
  {
  }

  lemma LeavesDetermined(s: Scheme, a: seq<Entry>, b: seq<Entry>, texts: set<string>)
    requires Sound(s) && a != [] && b != []
    requires ValidChain(s, a) && ValidChain(s, b)
    requires LogRoot(s, a) == LogRoot(s, b)
    requires Hashed(s, a) + Hashed(s, b) <= texts && !CollisionIn(s.hash, texts)
    ensures Leaves(a) == Leaves(b)
  {
    LeavesDistinct(s, a, texts);
    LeavesDistinct(s, b, texts);
    if Height(|a|) < Height(|b|) {
      TallerRootDiffers(s.hash, Leaves(a), FirstText(s, a), Leaves(b), texts);
    } else if Height(|b|) < Height(|a|) {
      TallerRootDiffers(s.hash, Leaves(b), FirstText(s, b), Leaves(a), texts);
    } else {
      RootInjective(s.hash, Leaves(a), Leaves(b), texts);
    }
  }

  function FirstText(s: Scheme, entries: seq<Entry>): string
    requires entries != []
  {
    s.text(entries[0].content)
  }

  lemma LeavesDistinct(s: Scheme, a: seq<Entry>, texts: set<string>)
    requires Sound(s) && ValidChain(s, a) && a != []
    requires Texts(s, a) <= texts && !CollisionIn(s.hash, texts)
    ensures Digests(Leaves(a)) && Distinct(Leaves(a))
    ensures FirstText(s, a) in texts && Leaves(a)[0] == s.hash(FirstText(s, a))
  {
    CollisionGrows(s.hash, Texts(s, a), texts);
    assert Follows(s, a[..0], a[0]);
    forall i | 0 <= i < |a|
      ensures IsDigest(Leaves(a)[i])
    {
      assert Follows(s, a[..i], a[i]);
    }
    forall i, j | 0 <= i < j < |a|
      ensures Leaves(a)[i] != Leaves(a)[j]
    {
      HashesDistinct(s, a, i, j);
    }
  }

  /** The empty log, and only it, has the hash of the marker as its root. */
  lemma EmptyRootUnique(s: Scheme, a: seq<Entry>, texts: set<string>)
    requires Sound(s) && ValidChain(s, a)
    requires Hashed(s, a) <= texts && !CollisionIn(s.hash, texts)
    ensures LogRoot(s, a) == s.hash(EMPTY_MARKER) <==> a == []
  {
    if |a| == 1 {
      LeavesDistinct(s, a, texts);
      assert !Collide(s.hash, FirstText(s, a), EMPTY_MARKER);
    } else if |a| > 1 {
      LeavesDistinct(s, a, texts);
      var text := RootText(s.hash, Leaves(a));
      assert !Collide(s.hash, text, EMPTY_MARKER);
    }
  }

  lemma {:induction false} RootText(hash: Hash, level: seq<string>) returns (text: string)
    requires Hexadecimal(hash) && Digests(level) && |level| > 1
    ensures text in NodeTexts(hash, level) && Root(hash, level) == hash(text) && |text| == 128
    decreases |level|
  {
    var parent := Up(hash, level);
    PairMember(hash, level, 0);
    UpDigests(hash, level);
    if |parent| == 1 {
      text := PairText(Pad(level), 0);
    } else {
      text := RootText(hash, parent);
    }
  }

  /** An entry presented with a proof that folds to a valid log's root is the log's own entry: all its
      hashed fields agree. */
  lemma ProvenEntryIsLogged(s: Scheme, log: seq<Entry>, idx: nat, claimed: Content, proof: seq<string>)
    requires Sound(s) && ValidChain(s, log) && idx < |log|
    requires |proof| == Height(|log|) && forall i | 0 <= i < |proof| :: |proof[i]| == 64
    requires Fold(s.hash, Digest(s, claimed), idx, proof) == LogRoot(s, log)
    ensures (claimed == log[idx].content && proof == LogProof(s, log, idx + 1))
         || CollisionIn(s.hash, Hashed(s, log) + {s.text(claimed)} + FoldTexts(s.hash, Digest(s, claimed), idx, proof))
  {
    var x := Digest(s, claimed);
    var texts := Hashed(s, log) + {s.text(claimed)} + FoldTexts(s.hash, x, idx, proof);
    if !CollisionIn(s.hash, texts) {
      LeavesDistinct(s, log, texts);
      ProofDetermined(s.hash, Leaves(log), idx, x, proof, texts);
      assert Follows(s, log[..idx], log[idx]);
      assert s.text(log[idx].content) in Texts(s, log);
      NoCollision(s.hash, texts, s.text(claimed), s.text(log[idx].content));
    }
  }

  /** A verifier who knows nothing but the root, not even how long the log is: whatever position is claimed and
      however long the list of digests, fields that fold to the root are those of some entry, and the list is as long
      as the tree is high. */
  lemma ProvenIsLoggedAnywhere(s: Scheme, log: seq<Entry>, idx: nat, claimed: Content, proof: seq<string>)
    requires Sound(s) && ValidChain(s, log) && Digests(proof)
    requires Fold(s.hash, Digest(s, claimed), idx, proof) == LogRoot(s, log)
    ensures (log != [] && |proof| == Height(|log|) && exists i :: 0 <= i < |log| && log[i].content == claimed)
         || CollisionIn(s.hash, Hashed(s, log) + {s.text(claimed)} + FoldTexts(s.hash, Digest(s, claimed), idx, proof))
  {
    var x, text := Digest(s, claimed), s.text(claimed);
    var texts := Hashed(s, log) + {text} + FoldTexts(s.hash, x, idx, proof);
    if !CollisionIn(s.hash, texts) {
      if log == [] {
        FoldIsNotMarker(s.hash, text, idx, proof, texts);
      } else {
        LeavesHashObjects(s, log, texts);
        if |proof| > Height(|log|) {
          NoLongerProof(s.hash, Leaves(log), idx, x, proof, texts);
        } else if |proof| < Height(|log|) {
          NoShorterProof(s.hash, Leaves(log), idx, text, proof, texts);
        } else {
          FoldsFromLeaf(s.hash, Leaves(log), idx, x, proof, texts);
          var i :| 0 <= i < |log| && Leaves(log)[i] == x;
          assert Follows(s, log[..i], log[i]) && s.text(log[i].content) in Texts(s, log);
          NoCollision(s.hash, texts, text, s.text(log[i].content));
        }
      }
    }
  }

  lemma LeavesHashObjects(s: Scheme, log: seq<Entry>, texts: set<string>)
    requires Sound(s) && ValidChain(s, log) && Texts(s, log) <= texts
    ensures HashObjects(s.hash, Leaves(log), texts) && Digests(Leaves(log))
  {
    forall i | 0 <= i < |log|
      ensures HashesObject(s.hash, Leaves(log)[i], texts) && IsDigest(Leaves(log)[i])
    {
      assert Follows(s, log[..i], log[i]) && s.text(log[i].content) in Texts(s, log);
    }
  }

  /** No fold of an entry's hash is the hash of the empty log's marker. */
  lemma {:induction false} FoldIsNotMarker(hash: Hash, text: string, idx: nat, proof: seq<string>, texts: set<string>)
    requires Hexadecimal(hash) && Digests(proof)
    requires text != EMPTY_MARKER && {text, EMPTY_MARKER} + FoldTexts(hash, hash(text), idx, proof) <= texts
    requires !CollisionIn(hash, texts)
    ensures Fold(hash, hash(text), idx, proof) != hash(EMPTY_MARKER)
    decreases |proof|
  {
    if proof == [] {
      assert !Collide(hash, text, EMPTY_MARKER);
    } else {
      var joined := Joined(hash(text), idx, proof[0]);
      assert |joined| == 128;
      FoldIsNotMarker(hash, joined, idx / 2, proof[1..], texts);
    }
  }

  /** The other direction: every entry of every log, at every position, folds to the log's root. */
  lemma LoggedEntryIsProven(s: Scheme, log: seq<Entry>, sequence: int)
    requires 1 <= sequence <= |log|
    ensures Fold(s.hash, log[sequence - 1].entryHash, sequence - 1, LogProof(s, log, sequence)) == LogRoot(s, log)
    ensures |LogProof(s, log, sequence)| == Height(|log|)
  {
    ProofComplete(s.hash, Leaves(log), sequence - 1);
  }
}
