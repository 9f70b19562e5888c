/** The assumptions on hash and text can be met, by a scheme with length-prefixed fields, and so can the absence of
    collisions, by a log of two entries. */
module AuditWitness {
  import opened Prelude
  import opened AuditChain
  import opened AuditTransfer
  import opened MerkleTree
  import opened MerkleBinding

  function Repeat(c: char, n: nat): string {
    seq(n, _ => c)
  }

  /** A field after its length in unary. */
  function Framed(x: string): string {
    Repeat('1', |x|) + "0" + x
  }

  function FramedAll(fields: seq<string>): string {
    if fields == [] then "" else Framed(fields[0]) + FramedAll(fields[1..])
  }

  function OfInt(n: int): string {
    if n >= 0 then "+" + Repeat('1', n) else "-" + Repeat('1', -n)
  }

  function OfOption(o: Option<string>): string {
    if o.Some? then "S" + o.value else "N"
  }

  function Fields(c: Content): seq<string> {
    [OfInt(c.timestamp), c.category, c.severity, c.event,
     OfOption(c.agentId), OfOption(c.taskId), c.details, c.prevHash]
  }

  function Text(c: Content): string {
    "{" + FramedAll(Fields(c))
  }

  lemma FrameSplits(x: string, p: string, y: string, q: string)
    requires Framed(x) + p == Framed(y) + q
    ensures x == y && p == q
  {
    var s, t := Framed(x) + p, Framed(y) + q;
    assert s[|x|] == '0' && forall i | 0 <= i < |x| :: s[i] == '1';
    assert t[|y|] == '0' && forall i | 0 <= i < |y| :: t[i] == '1';
    assert |x| == |y|;
    var n := |x|;
    assert s[n + 1..2 * n + 1] == x && t[n + 1..2 * n + 1] == y;
    assert s[2 * n + 1..] == p && t[2 * n + 1..] == q;
  }

  lemma {:induction false} FramesDetermineFields(a: seq<string>, b: seq<string>)
    requires |a| == |b| && FramedAll(a) == FramedAll(b)
    ensures a == b
  {
    if a != [] {
      FrameSplits(a[0], FramedAll(a[1..]), b[0], FramedAll(b[1..]));
      FramesDetermineFields(a[1..], b[1..]);
    }
  }

  lemma FieldsDetermineContent(c: Content, d: Content)
    requires Fields(c) == Fields(d)
    ensures c == d
  {
    forall i | 0 <= i < 8
      ensures Fields(c)[i] == Fields(d)[i]
    {
    }
    assert OfInt(c.timestamp) == Fields(c)[0] == Fields(d)[0] == OfInt(d.timestamp);
    assert |OfInt(c.timestamp)| == |OfInt(d.timestamp)|;
    assert OfInt(c.timestamp)[0] == OfInt(d.timestamp)[0];
    OptionsDetermined(c.agentId, d.agentId);
    OptionsDetermined(c.taskId, d.taskId);
  }

  lemma OptionsDetermined(o: Option<string>, p: Option<string>)
    ensures OfOption(o) == OfOption(p) ==> o == p
  {
    assert OfOption(o)[1..] == if o.Some? then o.value else "";
    assert OfOption(p)[1..] == if p.Some? then p.value else "";
    assert OfOption(o)[0] == if o.Some? then 'S' else 'N';
    assert OfOption(p)[0] == if p.Some? then 'S' else 'N';
  }

  function SchemeWith(hash: string -> string): Scheme {
    Scheme(hash, Text, x => |x|, x => x)
  }

  lemma SchemeIsSound(hash: string -> string)
    requires Hexadecimal(hash)
    ensures Sound(SchemeWith(hash))
  {
    forall c, d | Text(c) == Text(d)
      ensures c == d
    {
      assert Text(c)[1..] == FramedAll(Fields(c)) && Text(d)[1..] == FramedAll(Fields(d));
      FramesDetermineFields(Fields(c), Fields(d));
      FieldsDetermineContent(c, d);
    }
  }

  // ----- A log without collisions -----

  function HexDigit(n: nat): char
    requires n < 16
  {
    if n < 10 then '0' + n as char else 'a' + (n - 10) as char
  }

  /** The length of a text modulo 16, written 64 times. */
  function LengthHash(x: string): string {
    Repeat(HexDigit(|x| % 16), 64)
  }

  lemma LengthsTellApart(x: string, y: string)
    ensures LengthHash(x) == LengthHash(y) ==> |x| % 16 == |y| % 16
  {
    assert LengthHash(x)[0] == HexDigit(|x| % 16) && LengthHash(y)[0] == HexDigit(|y| % 16);
  }

  lemma FourLengths(a: string, b: string, c: string, d: string)
    requires |a| == 71 && |b| == 143 && |c| == 9 && |d| == 128
    ensures !CollisionIn(LengthHash, {a, b, c, d})
  {
    forall x, y | x in {a, b, c, d} && y in {a, b, c, d}
      ensures !Collide(LengthHash, x, y)
    {
      LengthsTellApart(x, y);
    }
  }

  lemma FrameLength(x: string, rest: seq<string>)
    ensures |FramedAll([x] + rest)| == 2 * |x| + 1 + |FramedAll(rest)|
  {
    assert ([x] + rest)[1..] == rest;
  }

  function Plain(prevHash: string): Content {
    Content(0, "", "", "", None, None, "", prevHash)
  }

  lemma PlainLength(prevHash: string)
    ensures |Text(Plain(prevHash))| == 2 * |prevHash| + 15
  {
    var f := Fields(Plain(prevHash));
    assert f[7..] == [prevHash] + [];
    FrameLength(prevHash, []);
    assert f[6..] == [""] + f[7..];
    FrameLength("", f[7..]);
    assert f[5..] == ["N"] + f[6..];
    FrameLength("N", f[6..]);
    assert f[4..] == ["N"] + f[5..];
    FrameLength("N", f[5..]);
    assert f[3..] == [""] + f[4..];
    FrameLength("", f[4..]);
    assert f[2..] == [""] + f[3..];
    FrameLength("", f[3..]);
    assert f[1..] == [""] + f[2..];
    FrameLength("", f[2..]);
    assert f[0] == OfInt(0) == "+";
    assert f == ["+"] + f[1..];
    FrameLength("+", f[1..]);
  }

  /** There are a sound scheme and a log of two recorded entries in which no two of the texts hashed collide, so what
      is proved in the absence of collisions is proved about something. */
  lemma CollisionFreeLogExists()
    ensures exists s, log :: Sound(s) && ValidChain(s, log) && |log| == 2 && !CollisionIn(s.hash, Hashed(s, log))
  {
    var s := SchemeWith(LengthHash);
    var r := Request("", "", "", None, None, Some(""));
    var first := Sealed(s, [], 0, r);
    var second := Sealed(s, [first], 0, r);
    var log := [first, second];
    SchemeIsSound(LengthHash);
    TwoSealed(s, first, second);
    PlainLength(GENESIS_HASH);
    PlainLength(first.entryHash);
    TwoEntriesHashed(s, first, second);
    FourLengths(Text(first.content), Text(second.content), EMPTY_MARKER, first.entryHash + second.entryHash);
    assert |log| == 2 && Sound(s) && ValidChain(s, log) && !CollisionIn(s.hash, Hashed(s, log));
  }

  lemma TwoSealed(s: Scheme, first: Entry, second: Entry)
    requires Follows(s, [], first) && Follows(s, [first], second)
    ensures ValidChain(s, [first, second])
  {
    assert [] + [first] == [first] && [first] + [second] == [first, second];
    ValidAppend(s, [], first);
    ValidAppend(s, [first], second);
  }

  /** The four texts hashed for two entries. */
  lemma TwoEntriesHashed(s: Scheme, first: Entry, second: Entry)
    ensures Hashed(s, [first, second])
         == {s.text(first.content), s.text(second.content), EMPTY_MARKER, first.entryHash + second.entryHash}
  {
    var log := [first, second];
    var leaves := Leaves(log);
    assert Texts(s, log) == {s.text(log[0].content), s.text(log[1].content)};
    var up := Up(s.hash, leaves);
    assert Pad(leaves) == leaves && |up| == 1;
    assert PairTexts(leaves) == {PairText(leaves, 0)};
    assert NodeTexts(s.hash, up) == {};
    assert NodeTexts(s.hash, leaves) == {leaves[0] + leaves[1]};
  }
}
