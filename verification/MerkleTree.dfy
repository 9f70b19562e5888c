/** The binary hash tree that repeats the last node of an odd level, its inclusion proofs, and what a
    root determines. */
module MerkleTree {
  import opened Prelude
  import opened AuditChain

  type Hash = string -> string

  // ----- Levels, root and proofs as functions -----

  function Pad(level: seq<string>): (padded: seq<string>)
    requires level != []
    ensures |padded| % 2 == 0 && level <= padded
  {
    if |level| % 2 == 1 then level + [level[|level| - 1]] else level
  }

  /** The text of the `i`-th pair of neighbours. */
  function PairText(level: seq<string>, i: nat): string
    requires 2 * i + 1 < |level|
  {
    level[2 * i] + level[2 * i + 1]
  }

  function Combine(hash: Hash, level: seq<string>): seq<string>
    requires |level| % 2 == 0
  {
    seq(|level| / 2, i requires 0 <= i < |level| / 2 => hash(PairText(level, i)))
  }

  /** The level above. */
  function Up(hash: Hash, level: seq<string>): (parent: seq<string>)
    requires level != []
    ensures |parent| == (|level| + 1) / 2
  {
    Combine(hash, Pad(level))
  }

  function Root(hash: Hash, level: seq<string>): string
    requires level != []
    decreases |level|
  {
    if |level| == 1 then level[0] else Root(hash, Up(hash, level))
  }

  /** The neighbour whose index differs in the lowest bit. */
  function Sibling(idx: nat): nat {
    if idx % 2 == 0 then idx + 1 else idx - 1
  }

  function Proof(hash: Hash, level: seq<string>, idx: nat): seq<string>
    requires idx < |level|
    decreases |level|
  {
    if |level| == 1 then [] else [Pad(level)[Sibling(idx)]] + Proof(hash, Up(hash, level), idx / 2)
  }

  /** How a verifier uses a proof: at each level the index parity says on which side the sibling goes. */
  function Joined(x: string, idx: nat, sibling: string): string {
    if idx % 2 == 0 then x + sibling else sibling + x
  }

  function Fold(hash: Hash, x: string, idx: nat, proof: seq<string>): string
    decreases |proof|
  {
    if proof == [] then x else Fold(hash, hash(Joined(x, idx, proof[0])), idx / 2, proof[1..])
  }

  function Height(n: nat): nat
    requires n > 0
  {
    if n == 1 then 0 else 1 + Height((n + 1) / 2)
  }

  function Pow2(k: nat): (p: nat)
    ensures p > 0
  {
    if k == 0 then 1 else 2 * Pow2(k - 1)
  }

  /** The height is the base-two logarithm of the number of leaves, rounded up. */
  lemma {:induction false} HeightIsCeilLog2(n: nat, k: nat)
    requires n > 0
    ensures n <= Pow2(Height(n))
    ensures n <= Pow2(k) ==> Height(n) <= k
  {
    if n > 1 {
      HeightIsCeilLog2((n + 1) / 2, if k == 0 then 0 else k - 1);
    }
  }

  /** The root of two full trees of one height side by side is the hash of the left root followed by the right one. */
  lemma {:induction false} RootOfHalves(hash: Hash, a: seq<string>, b: seq<string>, k: nat)
    requires |a| == |b| == Pow2(k)
    ensures Root(hash, a + b) == hash(Root(hash, a) + Root(hash, b))
    decreases k
  {
    var both := a + b;
    assert Pad(both) == both;
    if k == 0 {
      assert PairText(both, 0) == a[0] + b[0];
      assert Up(hash, both) == [hash(a[0] + b[0])];
    } else {
      UpOfHalves(hash, a, b);
      RootOfHalves(hash, Up(hash, a), Up(hash, b), k - 1);
    }
  }

  lemma UpOfHalves(hash: Hash, a: seq<string>, b: seq<string>)
    requires a != [] && b != [] && |a| % 2 == 0 && |b| % 2 == 0
    ensures Up(hash, a + b) == Up(hash, a) + Up(hash, b)
  {
    var both, half := a + b, |a| / 2;
    assert Pad(both) == both && Pad(a) == a && Pad(b) == b;
    forall i | 0 <= i < |Up(hash, both)|
      ensures Up(hash, both)[i] == if i < half then Up(hash, a)[i] else Up(hash, b)[i - half]
    {
      if i < half {
        assert PairText(both, i) == PairText(a, i);
      } else {
        assert PairText(both, i) == PairText(b, i - half);
      }
    }
  }

  // ----- The texts hashed -----

  function PairTexts(level: seq<string>): set<string>
    requires |level| % 2 == 0
  {
    set i | 0 <= i < |level| / 2 :: PairText(level, i)
  }

  /** Every text hashed while the root of `level` is computed. */
  function NodeTexts(hash: Hash, level: seq<string>): set<string>
    requires level != []
    decreases |level|
  {
    if |level| == 1 then {} else PairTexts(Pad(level)) + NodeTexts(hash, Up(hash, level))
  }

  /** Every text hashed while a proof is folded. */
  function FoldTexts(hash: Hash, x: string, idx: nat, proof: seq<string>): set<string>
    decreases |proof|
  {
    if proof == [] then {}
    else
      var text := Joined(x, idx, proof[0]);
      {text} + FoldTexts(hash, hash(text), idx / 2, proof[1..])
  }

  // ----- Inclusion proofs -----

  lemma FoldStep(hash: Hash, x: string, idx: nat, first: string, rest: seq<string>)
    ensures Fold(hash, x, idx, [first] + rest) == Fold(hash, hash(Joined(x, idx, first)), idx / 2, rest)
  {
    assert ([first] + rest)[1..] == rest;
  }

  lemma JoinedWithSibling(level: seq<string>, idx: nat)
    requires idx < |level| && |level| > 1
    ensures Joined(level[idx], idx, Pad(level)[Sibling(idx)]) == PairText(Pad(level), idx / 2)
  {
    assert idx == 2 * (idx / 2) || idx == 2 * (idx / 2) + 1;
  }

  /** Folding an entry's hash with its proof gives the root, and the proof is as long as the tree is high. */
  lemma {:induction false} ProofComplete(hash: Hash, level: seq<string>, idx: nat)
    requires idx < |level|
    ensures Fold(hash, level[idx], idx, Proof(hash, level, idx)) == Root(hash, level)
    ensures |Proof(hash, level, idx)| == Height(|level|)
    decreases |level|
  {
    if |level| > 1 {
      ProofComplete(hash, Up(hash, level), idx / 2);
      PairMember(hash, level, idx / 2);
      JoinedWithSibling(level, idx);
      FoldStep(hash, level[idx], idx, Pad(level)[Sibling(idx)], Proof(hash, Up(hash, level), idx / 2));
    }
  }

  predicate Digests(level: seq<string>) {
    forall i | 0 <= i < |level| :: IsDigest(level[i])
  }

  lemma SplitEqual(a: string, b: string, c: string, d: string)
    requires a + b == c + d && |a| == |c|
    ensures a == c && b == d
  {
    assert (a + b)[..|a|] == a && (c + d)[..|c|] == c;
    assert (a + b)[|a|..] == b && (c + d)[|c|..] == d;
  }

  /** Only the true leaf, with the true proof, folds to the root. */
  lemma ProofSound(hash: Hash, level: seq<string>, idx: nat, x: string, proof: seq<string>)
    requires Hexadecimal(hash) && Digests(level) && idx < |level|
    requires |x| == 64 && |proof| == Height(|level|) && forall i | 0 <= i < |proof| :: |proof[i]| == 64
    requires Fold(hash, x, idx, proof) == Root(hash, level)
    ensures (x == level[idx] && proof == Proof(hash, level, idx))
         || CollisionIn(hash, NodeTexts(hash, level) + FoldTexts(hash, x, idx, proof))
  {
    var texts := NodeTexts(hash, level) + FoldTexts(hash, x, idx, proof);
    if !CollisionIn(hash, texts) {
      ProofDetermined(hash, level, idx, x, proof, texts);
    }
  }

  lemma {:induction false} ProofDetermined(
      hash: Hash, level: seq<string>, idx: nat, x: string, proof: seq<string>, texts: set<string>)
    requires Hexadecimal(hash) && Digests(level) && idx < |level|
    requires |x| == 64 && |proof| == Height(|level|) && forall i | 0 <= i < |proof| :: |proof[i]| == 64
    requires Fold(hash, x, idx, proof) == Root(hash, level)
    requires NodeTexts(hash, level) + FoldTexts(hash, x, idx, proof) <= texts && !CollisionIn(hash, texts)
    ensures x == level[idx] && proof == Proof(hash, level, idx)
    decreases |level|
  {
    if |level| > 1 {
      var parent, k, text := Up(hash, level), idx / 2, Joined(x, idx, proof[0]);
      UpDigests(hash, level);
      FoldStep(hash, x, idx, proof[0], proof[1..]);
      assert proof == [proof[0]] + proof[1..];
      ProofDetermined(hash, parent, k, hash(text), proof[1..], texts);
      PairMember(hash, level, k);
      NoCollision(hash, texts, text, PairText(Pad(level), k));
      JoinedIsPair(level, idx, x, proof[0]);
    }
  }

  lemma UpDigests(hash: Hash, level: seq<string>)
    requires Hexadecimal(hash) && |level| > 1
    ensures Digests(Up(hash, level))
  {
    forall k | 0 <= k < |Up(hash, level)|
      ensures IsDigest(Up(hash, level)[k])
    {
      PairMember(hash, level, k);
    }
  }

  lemma PairMember(hash: Hash, level: seq<string>, k: nat)
    requires |level| > 1 && k < |Up(hash, level)|
    ensures 2 * k + 1 < |Pad(level)|
    ensures Up(hash, level)[k] == hash(PairText(Pad(level), k))
    ensures PairText(Pad(level), k) in NodeTexts(hash, level)
  {
    assert PairText(Pad(level), k) in PairTexts(Pad(level));
  }

  lemma JoinedIsPair(level: seq<string>, idx: nat, x: string, sibling: string)
    requires Digests(level) && idx < |level| && |level| > 1 && |x| == |sibling| == 64
    requires Joined(x, idx, sibling) == PairText(Pad(level), idx / 2)
    ensures x == level[idx] && sibling == Pad(level)[Sibling(idx)]
  {
    var left, right := Pad(level)[2 * (idx / 2)], Pad(level)[2 * (idx / 2) + 1];
    if idx % 2 == 0 {
      SplitEqual(x, sibling, left, right);
    } else {
      SplitEqual(sibling, x, left, right);
    }
  }

  // ----- Proofs of any length, at any position -----

  predicate AllOfLength(proof: seq<string>, n: nat) {
    forall i | 0 <= i < |proof| :: |proof[i]| == n
  }

  /** A value that folds to the root along a list as long as the tree is high is a leaf, wherever it claims to be. */
  lemma {:induction false} FoldsFromLeaf(
      hash: Hash, level: seq<string>, idx: nat, x: string, proof: seq<string>, texts: set<string>)
    requires Hexadecimal(hash) && Digests(level) && level != []
    requires |x| == 64 && AllOfLength(proof, 64) && |proof| == Height(|level|)
    requires Fold(hash, x, idx, proof) == Root(hash, level)
    requires NodeTexts(hash, level) + FoldTexts(hash, x, idx, proof) <= texts && !CollisionIn(hash, texts)
    ensures x in level
    decreases |level|
  {
    if |level| > 1 {
      var parent, text := Up(hash, level), Joined(x, idx, proof[0]);
      UpDigests(hash, level);
      FoldsFromLeaf(hash, parent, idx / 2, hash(text), proof[1..], texts);
      var k :| 0 <= k < |parent| && parent[k] == hash(text);
      PairMember(hash, level, k);
      NoCollision(hash, texts, text, PairText(Pad(level), k));
      HalfOfPair(level, idx, x, proof[0], k);
    }
  }

  lemma HalfOfPair(level: seq<string>, idx: nat, x: string, sibling: string, k: nat)
    requires Digests(level) && level != [] && 2 * k + 1 < |Pad(level)| && |x| == |sibling| == 64
    requires Joined(x, idx, sibling) == PairText(Pad(level), k)
    ensures x in level
  {
    var left, right := Pad(level)[2 * k], Pad(level)[2 * k + 1];
    if idx % 2 == 0 {
      SplitEqual(x, sibling, left, right);
    } else {
      SplitEqual(sibling, x, left, right);
    }
  }

  /** A list longer than the tree is high cannot fold to the root of leaves that all hash JSON objects. */
  lemma {:induction false} NoLongerProof(
      hash: Hash, level: seq<string>, idx: nat, x: string, proof: seq<string>, texts: set<string>)
    requires Hexadecimal(hash) && Digests(level) && level != []
    requires HashObjects(hash, level, texts)
    requires IsDigest(x) && Digests(proof) && |proof| > Height(|level|)
    requires NodeTexts(hash, level) + FoldTexts(hash, x, idx, proof) <= texts && !CollisionIn(hash, texts)
    ensures Fold(hash, x, idx, proof) != Root(hash, level)
    decreases |proof|
  {
    var text := Joined(x, idx, proof[0]);
    assert IsHexDigit(text[0]);
    if |proof| - 1 > Height(|level|) {
      NoLongerProof(hash, level, idx / 2, hash(text), proof[1..], texts);
    } else if Fold(hash, x, idx, proof) == Root(hash, level) {
      FoldsFromLeaf(hash, level, idx / 2, hash(text), proof[1..], texts);
      NotAnObject(hash, level, text, texts);
    }
  }

  /** Every member is the hash of one of the texts, a JSON object. */
  ghost predicate HashObjects(hash: Hash, level: seq<string>, texts: set<string>) {
    forall i | 0 <= i < |level| :: HashesObject(hash, level[i], texts)
  }

  ghost predicate HashesObject(hash: Hash, x: string, texts: set<string>) {
    exists text :: text in texts && text != [] && text[0] == '{' && x == hash(text)
  }

  lemma NotAnObject(hash: Hash, level: seq<string>, text: string, texts: set<string>)
    requires HashObjects(hash, level, texts) && !CollisionIn(hash, texts)
    requires text in texts && text != [] && IsHexDigit(text[0])
    ensures hash(text) !in level
  {
    if hash(text) in level {
      var i :| 0 <= i < |level| && level[i] == hash(text);
      assert HashesObject(hash, level[i], texts);
      var json :| json in texts && json != [] && json[0] == '{' && level[i] == hash(json);
      NoCollision(hash, texts, text, json);
    }
  }

  /** A list shorter than the tree is high cannot fold the hash of a JSON object to the root. */
  lemma {:induction false} NoShorterProof(
      hash: Hash, level: seq<string>, idx: nat, text: string, proof: seq<string>, texts: set<string>)
    requires Hexadecimal(hash) && Digests(level) && level != []
    requires text in texts && text != [] && text[0] == '{'
    requires Digests(proof) && |proof| < Height(|level|)
    requires NodeTexts(hash, level) + FoldTexts(hash, hash(text), idx, proof) <= texts && !CollisionIn(hash, texts)
    ensures Fold(hash, hash(text), idx, proof) != Root(hash, level)
    decreases |level|
  {
    var parent := Up(hash, level);
    UpDigests(hash, level);
    if |proof| < Height(|parent|) {
      NoShorterProof(hash, parent, idx, text, proof, texts);
    } else if Fold(hash, hash(text), idx, proof) == Root(hash, level) {
      FoldsFromLeaf(hash, parent, idx, hash(text), proof, texts);
      var k :| 0 <= k < |parent| && parent[k] == hash(text);
      PairMember(hash, level, k);
      assert PairText(Pad(level), k)[0] == Pad(level)[2 * k][0];
      NoCollision(hash, texts, text, PairText(Pad(level), k));
    }
  }

  // ----- What a root determines -----

  /** In general it does not determine the leaves: an odd list and the same list with its last element
      repeated have the same root. */
  lemma RepeatedLastLeaf(hash: Hash, level: seq<string>)
    requires |level| > 1 && |level| % 2 == 1
    ensures Root(hash, level) == Root(hash, level + [level[|level| - 1]])
  {
    var longer := level + [level[|level| - 1]];
    assert Pad(level) == longer == Pad(longer);
  }

  predicate Distinct(level: seq<string>) {
    forall i, j | 0 <= i < j < |level| :: level[i] != level[j]
  }

  /** Equal nodes have equal children. */
  lemma ChildrenEqual(hash: Hash, a: seq<string>, i: nat, b: seq<string>, j: nat, texts: set<string>)
    requires Digests(a) && Digests(b) && |a| > 1 && |b| > 1
    requires i < |Up(hash, a)| && j < |Up(hash, b)| && Up(hash, a)[i] == Up(hash, b)[j]
    requires NodeTexts(hash, a) + NodeTexts(hash, b) <= texts && !CollisionIn(hash, texts)
    ensures Pad(a)[2 * i] == Pad(b)[2 * j] && Pad(a)[2 * i + 1] == Pad(b)[2 * j + 1]
  {
    PairMember(hash, a, i);
    PairMember(hash, b, j);
    NoCollision(hash, texts, PairText(Pad(a), i), PairText(Pad(b), j));
    SplitEqual(Pad(a)[2 * i], Pad(a)[2 * i + 1], Pad(b)[2 * j], Pad(b)[2 * j + 1]);
  }

  lemma UpDistinct(hash: Hash, level: seq<string>, texts: set<string>)
    requires Hexadecimal(hash) && Digests(level) && Distinct(level) && |level| > 1
    requires NodeTexts(hash, level) <= texts && !CollisionIn(hash, texts)
    ensures Distinct(Up(hash, level)) && Digests(Up(hash, level))
  {
    var parent := Up(hash, level);
    UpDigests(hash, level);
    forall i, j | 0 <= i < j < |parent|
      ensures parent[i] != parent[j]
    {
      assert Pad(level)[2 * i] == level[2 * i] && Pad(level)[2 * j] == level[2 * j];
      if parent[i] == parent[j] {
        ChildrenEqual(hash, level, i, level, j, texts);
      }
    }
  }

  /** Distinct leaves of trees of one height are determined by the root. */
  lemma {:induction false} RootInjective(hash: Hash, a: seq<string>, b: seq<string>, texts: set<string>)
    requires Hexadecimal(hash) && a != [] && b != []
    requires Digests(a) && Distinct(a) && Digests(b) && Distinct(b)
    requires Height(|a|) == Height(|b|) && Root(hash, a) == Root(hash, b)
    requires NodeTexts(hash, a) + NodeTexts(hash, b) <= texts && !CollisionIn(hash, texts)
    ensures a == b
    decreases |a|
  {
    if |a| > 1 {
      UpDistinct(hash, a, texts);
      UpDistinct(hash, b, texts);
      RootInjective(hash, Up(hash, a), Up(hash, b), texts);
      LevelDetermined(hash, a, b, texts);
      PaddingUndone(a, b);
    }
  }

  lemma LevelDetermined(hash: Hash, a: seq<string>, b: seq<string>, texts: set<string>)
    requires Digests(a) && Digests(b) && |a| > 1 && |b| > 1
    requires Up(hash, a) == Up(hash, b)
    requires NodeTexts(hash, a) + NodeTexts(hash, b) <= texts && !CollisionIn(hash, texts)
    ensures Pad(a) == Pad(b)
  {
    assert |Pad(a)| == 2 * |Up(hash, a)| && |Pad(b)| == 2 * |Up(hash, b)|;
    forall i | 0 <= i < |Pad(a)|
      ensures Pad(a)[i] == Pad(b)[i]
    {
      NodeDetermined(hash, a, b, i, texts);
    }
  }

  lemma NodeDetermined(hash: Hash, a: seq<string>, b: seq<string>, i: nat, texts: set<string>)
    requires Digests(a) && Digests(b) && |a| > 1 && |b| > 1
    requires Up(hash, a) == Up(hash, b) && i < |Pad(a)| == |Pad(b)|
    requires NodeTexts(hash, a) + NodeTexts(hash, b) <= texts && !CollisionIn(hash, texts)
    ensures Pad(a)[i] == Pad(b)[i]
  {
    var k := i / 2;
    assert i == 2 * k || i == 2 * k + 1;
    assert k < |Up(hash, a)|;
    ChildrenEqual(hash, a, k, b, k, texts);
  }

  lemma PaddingUndone(a: seq<string>, b: seq<string>)
    requires a != [] && b != [] && Distinct(a) && Distinct(b)
    requires Pad(a) == Pad(b)
    ensures a == b
  {
    var padded := Pad(a);
    if |a| % 2 == 1 {
      assert padded[|a| - 1] == padded[|a|];
    }
    if |b| % 2 == 1 {
      assert padded[|b| - 1] == padded[|b|];
    }
  }

  /** A taller tree cannot have the root of a lower one whose leaves hash JSON objects. */
  lemma {:induction false} TallerRootDiffers(
      hash: Hash, a: seq<string>, text: string, b: seq<string>, texts: set<string>)
    requires Hexadecimal(hash) && a != [] && b != []
    requires Digests(a) && Distinct(a) && Digests(b) && Distinct(b)
    requires text != [] && text[0] == '{' && a[0] == hash(text)
    requires Height(|a|) < Height(|b|)
    requires {text} + NodeTexts(hash, a) + NodeTexts(hash, b) <= texts && !CollisionIn(hash, texts)
    ensures Root(hash, a) != Root(hash, b)
    decreases |b|
  {
    var parent := Up(hash, b);
    UpDistinct(hash, b, texts);
    if Height(|a|) < Height(|parent|) {
      TallerRootDiffers(hash, a, text, parent, texts);
    } else if Root(hash, a) == Root(hash, b) {
      RootInjective(hash, a, parent, texts);
      PairMember(hash, b, 0);
      assert PairText(Pad(b), 0)[0] == b[0][0];
      NoCollision(hash, texts, text, PairText(Pad(b), 0));
      assert false;
    }
  }

  // ----- The loops -----

  /** `_merkle_root` for at least one leaf. */
  method MerkleRoot(hash: Hash, leaves: seq<string>) returns (root: string)
    requires leaves != []
    ensures root == Root(hash, leaves)
  {
    var level := leaves;
    while |level| > 1
      invariant level != [] && Root(hash, level) == Root(hash, leaves)
      decreases |level|
    {
      level := PadLevel(level);
      level := ParentLevel(hash, level);
    }
    root := level[0];
  }

  method PadLevel(level: seq<string>) returns (padded: seq<string>)
    requires level != []
    ensures padded == Pad(level)
  {
    padded := level;
    if |padded| % 2 == 1 {
      padded := padded + [padded[|padded| - 1]];
    }
  }

  method ParentLevel(hash: Hash, level: seq<string>) returns (parent: seq<string>)
    requires |level| % 2 == 0
    ensures parent == Combine(hash, level)
  {
    parent := [];
    var i := 0;
    while i < |level|
      invariant 0 <= i <= |level| && i % 2 == 0
      invariant parent == Combine(hash, level)[..i / 2]
    {
      var combined := level[i] + level[i + 1];
      assert combined == PairText(level, i / 2);
      parent := parent + [hash(combined)];
      i := i + 2;
    }
  }

  /** The loop of `compute_merkle_proof`.  The guard on the sibling is the source's; it never fails. */
  method MerkleProof(hash: Hash, leaves: seq<string>, index: nat) returns (proof: seq<string>)
    requires index < |leaves|
    ensures proof == Proof(hash, leaves, index)
  {
    proof := [];
    var idx, level := index, leaves;
    ghost var answer := Proof(hash, leaves, index);
    while |level| > 1
      invariant 0 <= idx < |level|
      invariant Continues(answer, proof, Proof(hash, level, idx))
      decreases |level|
    {
      ghost var above := Proof(hash, Up(hash, level), idx / 2);
      ProofStep(hash, level, idx);
      var padded := PadLevel(level);
      level := ParentLevel(hash, padded);
      proof := AddSibling(padded, idx, proof, answer, above);
      idx := idx / 2;
    }
  }

  lemma ProofStep(hash: Hash, level: seq<string>, idx: nat)
    requires idx < |level| && |level| > 1
    ensures Sibling(idx) < |Pad(level)| && idx / 2 < |Up(hash, level)|
    ensures Proof(hash, level, idx) == [Pad(level)[Sibling(idx)]] + Proof(hash, Up(hash, level), idx / 2)
  {
  }

  method AddSibling(
      level: seq<string>, idx: nat, proof: seq<string>, ghost answer: seq<string>, ghost above: seq<string>)
    returns (longer: seq<string>)
    requires Sibling(idx) < |level|
    requires Continues(answer, proof, [level[Sibling(idx)]] + above)
    ensures longer == proof + [level[Sibling(idx)]] && Continues(answer, longer, above)
  {
    longer := proof;
    var siblingIdx := Sibling(idx);
    if siblingIdx < |level| {
      longer := longer + [level[siblingIdx]];
    }
    OneMore(answer, proof, level[siblingIdx], above);
  }
}
