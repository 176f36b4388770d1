/**
  The collision composer: a byte stream built from segments with two-way choice
  points between them, each choice point a pair of 128-byte blocks that collide
  under MD5 from the chaining value reached just before them.

  The collision finder itself is an oracle: a function from an IHV (and an attempt
  number, standing for its randomness) to a pair of blocks, of which the model
  assumes only the guarantee it documents.
  */
module Coll {
  import opened Wrappers
  import opened Md5

  // ---------------------------------------------------------------------------
  // Padding to a block boundary (coll.py:38-46)
  // ---------------------------------------------------------------------------

  /** `ch * n`: the byte string `ch` repeated `n` times. */
  function Repeat(ch: seq<Byte>, n: nat): (r: seq<Byte>)
    ensures |r| == n * |ch|
    ensures |ch| == 1 ==> forall k :: 0 <= k < |r| ==> r[k] == ch[0]
  {
    if n == 0 then [] else ch + Repeat(ch, n - 1)
  }

  /** `md5lpad`: as many copies of `ch` as the bytes missing from `l` to the next block boundary. */
  function Md5lpad(l: nat, ch: seq<Byte>): (r: seq<Byte>)
    ensures |r| == ((-(l as int)) % 64) * |ch|
    ensures l % 64 == 0 ==> r == []
    ensures |ch| == 1 ==> |r| < 64 && (l + |r|) % 64 == 0
    ensures |ch| == 1 ==> forall k :: 0 <= k < |r| ==> r[k] == ch[0]
  {
    var c := l % 64;
    var c := if c == 0 then 64 else c;
    PadCount(l);
    Repeat(ch, 64 - c)
  }

  /** The number of copies `md5lpad` takes is `(-l) mod 64`, and it completes the block. */
  lemma {:induction false} PadCount(l: nat)
    ensures (if l % 64 == 0 then 0 else 64 - l % 64) == (-(l as int)) % 64
    ensures l % 64 != 0 ==> (l + (64 - l % 64)) % 64 == 0
  {
    var q, r := l / 64, l % 64;
    assert l == 64 * q + r;
    if r == 0 {
      ModOf(-(l as int), -q, 0);
    } else {
      ModOf(-(l as int), -q - 1, 64 - r);
      ModOf(l + (64 - r), q + 1, 0);
    }
  }

  /** The remainder of `x` by 64, from a quotient and a remainder that fit. */
  lemma {:induction false} ModOf(x: int, q: int, r: int)
    requires x == 64 * q + r && 0 <= r < 64
    ensures x % 64 == r
  {
  }

  /** `md5pad`: the padding that takes the byte string `b` to a block boundary. */
  function Md5pad(b: seq<Byte>, ch: seq<Byte>): (r: seq<Byte>)
    ensures |r| == ((-(|b| as int)) % 64) * |ch|
    ensures |b| % 64 == 0 ==> r == []
    ensures |ch| == 1 ==> |r| < 64 && (|b| + |r|) % 64 == 0
  {
    Md5lpad(|b|, ch)
  }

  // ---------------------------------------------------------------------------
  // Block filters (coll.py:50-54)
  // ---------------------------------------------------------------------------

  /** A filter that a collision block must pass. */
  type Filter = seq<Byte> -> bool

  /** `e` occurs in `b` starting at position `i`. */
  ghost predicate OccursAt(b: seq<Byte>, e: seq<Byte>, i: int)
  {
    0 <= i <= |b| - |e| && b[i..i + |e|] == e
  }

  /** Python's `e in b` on byte strings: `e` is a contiguous substring of `b`. */
  function Contains(b: seq<Byte>, e: seq<Byte>): (r: bool)
    ensures r <==> exists i :: OccursAt(b, e, i)
    decreases |b|
  {
    if |e| > |b| then false
    else if b[..|e|] == e then assert OccursAt(b, e, 0); true
    else
      var r := Contains(b[1..], e);
      assert forall i :: OccursAt(b[1..], e, i) ==> OccursAt(b, e, i + 1);
      assert forall i :: OccursAt(b, e, i) && i > 0 ==> OccursAt(b[1..], e, i - 1);
      r
  }

  /** `filter_disallow_binstrings(strs)`: passes exactly the blocks in which no element of `strs` occurs. */
  function FilterDisallowBinstrings(strs: seq<seq<Byte>>): (f: Filter)
    ensures forall b :: f(b) <==> forall e :: e in strs ==> !exists i :: OccursAt(b, e, i)
  {
    b => forall e :: e in strs ==> !Contains(b, e)
  }

  // ---------------------------------------------------------------------------
  // The collision oracle (coll.py:58-59)
  // ---------------------------------------------------------------------------

  /** A pair of alternative blocks (`(b0, b1)`). */
  datatype Pair = Pair(b0: seq<Byte>, b1: seq<Byte>)

  /** The collision finder: from a 16-byte IHV and an attempt number, a pair of blocks. */
  type Oracle = (seq<Byte>, nat) -> Pair

  /** Both blocks of `p` pass `f` (coll.py:140). */
  predicate Accepts(f: Filter, p: Pair)
  {
    f(p.b0) && f(p.b1)
  }

  /** Two different 128-byte blocks that, chained from `h`, reach one common chaining value. */
  ghost predicate CollidesFrom(h: seq<Word>, p: Pair)
  {
    |h| == 4 && |p.b0| == 128 && |p.b1| == 128 && p.b0 != p.b1 && ChainBlocks(h, p.b0) == ChainBlocks(h, p.b1)
  }

  /** The guarantee `collide` documents: every answer is a collision from the IHV it was given. */
  ghost predicate IsCollisionOracle(collide: Oracle)
  {
    forall ihv: seq<Byte>, k: nat :: |ihv| == 16 ==> AnswerCollides(collide, ihv, k)
  }

  /** Answer `k` of `collide` about `ihv` is a collision from that IHV. */
  ghost predicate AnswerCollides(collide: Oracle, ihv: seq<Byte>, k: nat)
  {
    CollidesFrom(BinToInt(ihv), collide(ihv, k))
  }

  // ---------------------------------------------------------------------------
  // Streams of segments and choices (coll.py:161-170)
  // ---------------------------------------------------------------------------

  /** The blocks a choice vector selects, `div[i][bincode[i]]` for each `i`. */
  function Blocks(div: seq<Pair>, code: seq<Bit>): (r: seq<seq<Byte>>)
    requires |code| == |div|
    ensures |r| == |div|
  {
    seq(|div|, i requires 0 <= i < |div| => if code[i] == 0 then div[i].b0 else div[i].b1)
  }

  /** The first block of every pair: the branch the running digest follows. */
  function FirstBlocks(div: seq<Pair>): (r: seq<seq<Byte>>)
    ensures |r| == |div|
  {
    seq(|div|, i requires 0 <= i < |div| => div[i].b0)
  }

  /**
    A code picks the first block at every choice point exactly when it is all zeros, up to
    choice points whose two blocks are equal.
    */
  lemma BlocksOfZeroCode(div: seq<Pair>, code: seq<Bit>)
    requires |code| == |div|
    ensures (forall i :: 0 <= i < |code| ==> code[i] == 0) ==> Blocks(div, code) == FirstBlocks(div)
    ensures Blocks(div, code) == FirstBlocks(div) ==> forall i :: 0 <= i < |code| ==> code[i] == 0 || div[i].b1 == div[i].b0
  {
    if Blocks(div, code) == FirstBlocks(div) {
      forall i | 0 <= i < |code|
        ensures code[i] == 0 || div[i].b1 == div[i].b0
      {
        assert Blocks(div, code)[i] == FirstBlocks(div)[i];
      }
    }
  }

  /** `zip_longest(segs, blocks, fillvalue=b'')`, joined, from position `k` on. */
  function ZipFrom(segs: seq<seq<Byte>>, blocks: seq<seq<Byte>>, k: nat): seq<Byte>
    decreases (if |segs| > |blocks| then |segs| else |blocks|) - k
  {
    if k >= |segs| && k >= |blocks| then []
    else
      (if k < |segs| then segs[k] else []) + (if k < |blocks| then blocks[k] else [])
      + ZipFrom(segs, blocks, k + 1)
  }

  /** `b''.join(b''.join(e) for e in zip_longest(segs, blocks, fillvalue=b''))`. */
  function ZipJoin(segs: seq<seq<Byte>>, blocks: seq<seq<Byte>>): seq<Byte>
  {
    ZipFrom(segs, blocks, 0)
  }

  /** The stream before segment `j`: segments and blocks `0 .. j - 1`, interleaved. */
  function Before(segs: seq<seq<Byte>>, blocks: seq<seq<Byte>>, j: nat): seq<Byte>
    requires j <= |segs| && j <= |blocks|
  {
    if j == 0 then [] else Before(segs, blocks, j - 1) + segs[j - 1] + blocks[j - 1]
  }

  /** The stream up to choice point `j`: everything before segment `j`, then that segment. */
  function Prefix(segs: seq<seq<Byte>>, blocks: seq<seq<Byte>>, j: nat): seq<Byte>
    requires j < |segs| && j <= |blocks|
  {
    Before(segs, blocks, j) + segs[j]
  }

  /** The output for choice vector `code` (coll.py:167-169). */
  function Item(segs: seq<seq<Byte>>, div: seq<Pair>, code: seq<Bit>): seq<Byte>
    requires |code| == |div|
  {
    ZipJoin(segs, Blocks(div, code))
  }

  /** The stream that takes the first block at every choice point. */
  function Stream(segs: seq<seq<Byte>>, div: seq<Pair>): seq<Byte>
    requires |segs| == |div| + 1
  {
    Prefix(segs, FirstBlocks(div), |div|)
  }

  /** The stream before segment `j` has a length fixed by the block lengths, not by their contents. */
  lemma {:induction false} BeforeLength(segs: seq<seq<Byte>>, b1: seq<seq<Byte>>, b2: seq<seq<Byte>>, j: nat)
    requires j <= |segs| && j <= |b1| && j <= |b2|
    requires forall i :: 0 <= i < j ==> |b1[i]| == |b2[i]|
    ensures |Before(segs, b1, j)| == |Before(segs, b2, j)|
  {
    if j > 0 {
      BeforeLength(segs, b1, b2, j - 1);
    }
  }

  /** Block `k` sits in the join right after the stream before segment `k` and segment `k` itself. */
  lemma BlockInJoin(segs: seq<seq<Byte>>, blocks: seq<seq<Byte>>, k: nat)
    requires |segs| == |blocks| + 1 && k < |blocks|
    ensures var at := |Before(segs, blocks, k)| + |segs[k]|;
      at + |blocks[k]| <= |ZipJoin(segs, blocks)| && ZipJoin(segs, blocks)[at .. at + |blocks[k]|] == blocks[k]
  {
    ZipFromAfter(segs, blocks, k);
    ZipFromStep(segs, blocks, k);
    SliceMiddle(Before(segs, blocks, k), segs[k], blocks[k], ZipFrom(segs, blocks, k + 1));
  }

  lemma SliceMiddle(x: seq<Byte>, a: seq<Byte>, b: seq<Byte>, z: seq<Byte>)
    ensures (x + (a + b + z))[|x| + |a| .. |x| + |a| + |b|] == b
  {
    assert x + (a + b + z) == (x + a) + b + z;
  }

  /** Two different blocks of one length: the choice between them can be read back. */
  predicate Alternatives(p: Pair)
  {
    |p.b0| == |p.b1| && p.b0 != p.b1
  }

  /** When every pair offers two different blocks of one length, the output determines the choice vector. */
  lemma ItemDeterminesCode(segs: seq<seq<Byte>>, div: seq<Pair>, c: seq<Bit>, d: seq<Bit>)
    requires |segs| == |div| + 1 && |c| == |div| && |d| == |div|
    requires forall k :: 0 <= k < |div| ==> Alternatives(div[k])
    ensures Item(segs, div, c) == Item(segs, div, d) ==> c == d
  {
    if Item(segs, div, c) == Item(segs, div, d) {
      var bc, bd := Blocks(div, c), Blocks(div, d);
      forall k | 0 <= k < |div|
        ensures c[k] == d[k]
      {
        assert forall i :: 0 <= i < k ==> |bc[i]| == |bd[i]| by {
          forall i | 0 <= i < k
            ensures |bc[i]| == |bd[i]|
          {
            assert Alternatives(div[i]);
          }
        }
        BeforeLength(segs, bc, bd, k);
        BlockInJoin(segs, bc, k);
        BlockInJoin(segs, bd, k);
        assert Alternatives(div[k]);
        assert bc[k] == bd[k];
      }
    }
  }

  /** `alldata[-1] += data`. */
  function AppendToLast(segs: seq<seq<Byte>>, data: seq<Byte>): (r: seq<seq<Byte>>)
    requires |segs| > 0
    ensures |r| == |segs|
  {
    segs[..|segs| - 1] + [segs[|segs| - 1] + data]
  }

  /** Two appends to the last segment are one append of both pieces, and the other segments stay. */
  lemma AppendTwice(segs: seq<seq<Byte>>, a: seq<Byte>, b: seq<Byte>)
    requires |segs| > 0
    ensures AppendToLast(AppendToLast(segs, a), b) == AppendToLast(segs, a + b)
    ensures AppendToLast(segs, a)[..|segs| - 1] == segs[..|segs| - 1]
  {
    var s1 := AppendToLast(segs, a);
    assert s1[..|segs| - 1] == segs[..|segs| - 1];
    assert s1[|segs| - 1] + b == segs[|segs| - 1] + (a + b);
  }

  /** Appending nothing to the last segment changes nothing. */
  lemma {:induction false} AppendNothing(segs: seq<seq<Byte>>)
    requires |segs| > 0
    ensures AppendToLast(segs, []) == segs
  {
    assert segs[|segs| - 1] + [] == segs[|segs| - 1];
  }

  /** The pair at choice point `j` collides from the chaining value of the first-branch stream up to it. */
  ghost predicate RecordedAt(segs: seq<seq<Byte>>, div: seq<Pair>, j: nat)
    requires |segs| == |div| + 1 && j < |div|
  {
    CollidesFrom(ChainBlocks(IHV0, Prefix(segs, FirstBlocks(div), j)), div[j])
  }

  /** Every recorded pair collides from the chaining value of the first-branch stream before it. */
  ghost predicate Recorded(segs: seq<seq<Byte>>, div: seq<Pair>)
  {
    && |segs| == |div| + 1
    && forall j :: 0 <= j < |div| ==> RecordedAt(segs, div, j)
  }

  /** Choice point `j` sits on a block boundary. */
  ghost predicate AlignedPoint(segs: seq<seq<Byte>>, div: seq<Pair>, j: nat)
    requires |segs| == |div| + 1 && j < |div|
  {
    |Prefix(segs, FirstBlocks(div), j)| % 64 == 0
  }

  /** Every choice point sits on a block boundary. */
  ghost predicate AlignedAt(segs: seq<seq<Byte>>, div: seq<Pair>)
  {
    && |segs| == |div| + 1
    && forall j :: 0 <= j < |div| ==> AlignedPoint(segs, div, j)
  }

  /** The interleaving depends only on the segments and blocks before position `j`. */
  lemma {:induction false} BeforeAgrees(s1: seq<seq<Byte>>, b1: seq<seq<Byte>>, s2: seq<seq<Byte>>, b2: seq<seq<Byte>>, j: nat)
    requires j <= |s1| && j <= |b1| && j <= |s2| && j <= |b2|
    requires forall i :: 0 <= i < j ==> s1[i] == s2[i] && b1[i] == b2[i]
    ensures Before(s1, b1, j) == Before(s2, b2, j)
  {
    if j > 0 {
      BeforeAgrees(s1, b1, s2, b2, j - 1);
    }
  }

  /** Joining from position `j` on completes the stream before `j` to the whole join. */
  lemma {:induction false} ZipFromAfter(segs: seq<seq<Byte>>, blocks: seq<seq<Byte>>, j: nat)
    requires |segs| == |blocks| + 1 && j <= |blocks|
    ensures Before(segs, blocks, j) + ZipFrom(segs, blocks, j) == ZipJoin(segs, blocks)
  {
    if j > 0 {
      ZipFromAfter(segs, blocks, j - 1);
      ZipFromStep(segs, blocks, j - 1);
      Regroup(Before(segs, blocks, j - 1), segs[j - 1], blocks[j - 1], ZipFrom(segs, blocks, j));
    }
  }

  lemma ZipFromStep(segs: seq<seq<Byte>>, blocks: seq<seq<Byte>>, k: nat)
    requires |segs| == |blocks| + 1 && k < |blocks|
    ensures ZipFrom(segs, blocks, k) == segs[k] + blocks[k] + ZipFrom(segs, blocks, k + 1)
  {
  }

  lemma Regroup(x: seq<Byte>, a: seq<Byte>, b: seq<Byte>, z: seq<Byte>)
    ensures x + (a + b + z) == x + a + b + z
  {
  }

  /** With one more segment than blocks, the zipped join is segment, block, ..., block, segment. */
  lemma {:induction false} ZipJoinIsInterleaving(segs: seq<seq<Byte>>, blocks: seq<seq<Byte>>)
    requires |segs| == |blocks| + 1
    ensures ZipJoin(segs, blocks) == Prefix(segs, blocks, |blocks|)
  {
    var n := |blocks|;
    ZipFromAfter(segs, blocks, n);
    assert ZipFrom(segs, blocks, n + 1) == [];
    assert ZipFrom(segs, blocks, n) == segs[n] + [] + [];
  }

  /** Appending to the last segment extends the first-branch stream and keeps every choice point. */
  lemma {:induction false} BincatKeeps(segs: seq<seq<Byte>>, div: seq<Pair>, data: seq<Byte>)
    requires |segs| == |div| + 1
    ensures Stream(AppendToLast(segs, data), div) == Stream(segs, div) + data
    ensures Recorded(AppendToLast(segs, data), div) == Recorded(segs, div)
    ensures AlignedAt(AppendToLast(segs, data), div) == AlignedAt(segs, div)
  {
    var s2, fb, n := AppendToLast(segs, data), FirstBlocks(div), |div|;
    BeforeAgrees(s2, fb, segs, fb, n);
    forall j | 0 <= j < n
      ensures RecordedAt(s2, div, j) == RecordedAt(segs, div, j)
      ensures AlignedPoint(s2, div, j) == AlignedPoint(segs, div, j)
    {
      BeforeAgrees(s2, fb, segs, fb, j);
      assert Prefix(s2, fb, j) == Prefix(segs, fb, j);
    }
  }

  /**
    Opening a new segment after a pair keeps the stream up to every earlier choice
    point, and the new choice point comes after the whole first-branch stream.
    */
  lemma {:induction false} DivergePrefixes(segs: seq<seq<Byte>>, div: seq<Pair>, p: Pair)
    requires |segs| == |div| + 1
    ensures forall j :: 0 <= j < |div| ==> Prefix(segs + [[]], FirstBlocks(div + [p]), j) == Prefix(segs, FirstBlocks(div), j)
    ensures Prefix(segs + [[]], FirstBlocks(div + [p]), |div|) == Stream(segs, div)
    ensures Stream(segs + [[]], div + [p]) == Stream(segs, div) + p.b0
  {
    var s2, d2, n := segs + [[]], div + [p], |div|;
    var fb, fb2 := FirstBlocks(div), FirstBlocks(d2);
    forall j | 0 <= j <= n
      ensures Prefix(s2, fb2, j) == Prefix(segs, fb, j)
    {
      BeforeAgrees(s2, fb2, segs, fb, j);
    }
    assert Before(s2, fb2, n + 1) == Prefix(segs, fb, n) + p.b0;
    assert Stream(s2, d2) == Before(s2, fb2, n + 1) + [];
  }

  /** A new choice point is recorded when its pair collides from the chaining value of the stream so far. */
  lemma {:induction false} DivergeRecords(segs: seq<seq<Byte>>, div: seq<Pair>, p: Pair)
    requires |segs| == |div| + 1
    ensures Recorded(segs + [[]], div + [p])
        <==> Recorded(segs, div) && CollidesFrom(ChainBlocks(IHV0, Stream(segs, div)), p)
  {
    DivergePrefixes(segs, div, p);
    var s2, d2 := segs + [[]], div + [p];
    forall j | 0 <= j < |div|
      ensures RecordedAt(s2, d2, j) == RecordedAt(segs, div, j)
    {
      assert d2[j] == div[j];
    }
    assert RecordedAt(s2, d2, |div|) == CollidesFrom(ChainBlocks(IHV0, Stream(segs, div)), p);
  }

  /** Padding then opening a choice point leaves every choice point aligned exactly when the padded stream ends on a block boundary. */
  lemma {:induction false} PadDivergeAligns(segs: seq<seq<Byte>>, div: seq<Pair>, padBytes: seq<Byte>, p: Pair)
    requires |segs| == |div| + 1
    ensures AlignedAt(AppendToLast(segs, padBytes) + [[]], div + [p])
        <==> AlignedAt(segs, div) && (|Stream(segs, div)| + |padBytes|) % 64 == 0
  {
    BincatKeeps(segs, div, padBytes);
    DivergeAligns(AppendToLast(segs, padBytes), div, p);
  }

  /** A new choice point keeps the choice points aligned exactly when the stream so far is. */
  lemma {:induction false} DivergeAligns(segs: seq<seq<Byte>>, div: seq<Pair>, p: Pair)
    requires |segs| == |div| + 1
    ensures AlignedAt(segs + [[]], div + [p]) <==> AlignedAt(segs, div) && |Stream(segs, div)| % 64 == 0
  {
    DivergePrefixes(segs, div, p);
    var s2, d2 := segs + [[]], div + [p];
    assert forall j :: 0 <= j < |div| ==> AlignedPoint(s2, d2, j) == AlignedPoint(segs, div, j);
    assert AlignedPoint(s2, d2, |div|) == (|Stream(segs, div)| % 64 == 0);
  }

  // ---------------------------------------------------------------------------
  // Every output collides (coll.py:59, 126-127, 156-170)
  // ---------------------------------------------------------------------------

  lemma {:induction false} AlignedDiff(a: nat, b: nat)
    requires a % 64 == 0 && (a + b) % 64 == 0
    ensures b % 64 == 0
  {
    assert b == 64 * ((a + b) / 64) - 64 * (a / 64);
  }

  lemma {:induction false} AlignedAdd(a: nat, b: nat)
    requires a % 64 == 0 && b % 64 == 0
    ensures (a + b) % 64 == 0
  {
    assert a + b == 64 * (a / 64 + b / 64);
  }

  /** One choice point: equal chaining values before a shared segment stay equal across either colliding block. */
  lemma {:induction false} ChoiceStep(x: seq<Byte>, y: seq<Byte>, s: seq<Byte>, b: seq<Byte>, first: seq<Byte>)
    requires |x| == |y| && |y| % 64 == 0 && ChainBlocks(IHV0, x) == ChainBlocks(IHV0, y)
    requires |y + s| % 64 == 0 && |b| == 128 && |first| == 128
    requires ChainBlocks(ChainBlocks(IHV0, y + s), b) == ChainBlocks(ChainBlocks(IHV0, y + s), first)
    ensures |x + s + b| == |y + s + first| && |y + s + first| % 64 == 0
    ensures ChainBlocks(IHV0, x + s + b) == ChainBlocks(IHV0, y + s + first)
  {
    AlignedDiff(|y|, |s|);
    ChainBlocksConcat(IHV0, y, s);
    ChainBlocksConcat(IHV0, x, s);
    ChainBlocksConcat(IHV0, x + s, b);
    ChainBlocksConcat(IHV0, y + s, first);
    AlignedAdd(|y + s|, 128);
  }

  /**
    Whatever the choices, the stream before each segment has the length of the
    first-branch stream, sits on a block boundary and reaches the same chaining value.
    */
  lemma {:induction false} BranchesChainAlike(segs: seq<seq<Byte>>, div: seq<Pair>, code: seq<Bit>, j: nat)
    requires Recorded(segs, div) && AlignedAt(segs, div) && |code| == |div| && j <= |div|
    ensures |Before(segs, Blocks(div, code), j)| == |Before(segs, FirstBlocks(div), j)|
    ensures |Before(segs, FirstBlocks(div), j)| % 64 == 0
    ensures ChainBlocks(IHV0, Before(segs, Blocks(div, code), j)) == ChainBlocks(IHV0, Before(segs, FirstBlocks(div), j))
  {
    if j > 0 {
      var i := j - 1;
      BranchesChainAlike(segs, div, code, i);
      var bs, fb := Blocks(div, code), FirstBlocks(div);
      var x, y, s := Before(segs, bs, i), Before(segs, fb, i), segs[i];
      assert Prefix(segs, fb, i) == y + s;
      assert AlignedPoint(segs, div, i) && RecordedAt(segs, div, i);
      assert bs[i] == (if code[i] == 0 then div[i].b0 else div[i].b1) && fb[i] == div[i].b0;
      ChoiceStep(x, y, s, bs[i], fb[i]);
    }
  }

  /**
    Given the oracle's guarantee at every choice point and block-aligned choice
    points, every output has the length and the MD5 digest of the first-branch stream.
    */
  lemma {:induction false} AllItemsCollide(segs: seq<seq<Byte>>, div: seq<Pair>, code: seq<Bit>)
    requires Recorded(segs, div) && AlignedAt(segs, div) && |code| == |div|
    ensures |Item(segs, div, code)| == |Stream(segs, div)|
    ensures Md5Digest(Item(segs, div, code)) == Md5Digest(Stream(segs, div))
  {
    var n, bs, fb := |div|, Blocks(div, code), FirstBlocks(div);
    BranchesChainAlike(segs, div, code, n);
    ZipJoinIsInterleaving(segs, bs);
    SameTailSameDigest(Before(segs, bs, n), Before(segs, fb, n), segs[n]);
  }

  /** The digest of an aligned prefix followed by a tail depends on the prefix only through its chaining value. */
  lemma {:induction false} DigestAfterAligned(x: seq<Byte>, last: seq<Byte>)
    requires |x| % 64 == 0
    ensures Md5Digest(x + last) == IntToBin(ChainBlocks(ChainBlocks(IHV0, x), last + Padding(|x| + |last|)))
  {
    assert |x + last| == |x| + |last|;
    RegroupChain(x, last, Padding(|x| + |last|));
  }

  lemma {:induction false} RegroupChain(x: seq<Byte>, last: seq<Byte>, pad: seq<Byte>)
    requires |x| % 64 == 0
    ensures ChainBlocks(IHV0, (x + last) + pad) == ChainBlocks(ChainBlocks(IHV0, x), last + pad)
  {
    assert (x + last) + pad == x + (last + pad);
    ChainBlocksConcat(IHV0, x, last + pad);
  }

  /** Two aligned streams of one length and one chaining value, followed by the same bytes, share their digest. */
  lemma {:induction false} SameTailSameDigest(x: seq<Byte>, y: seq<Byte>, last: seq<Byte>)
    requires |x| == |y| && |x| % 64 == 0 && ChainBlocks(IHV0, x) == ChainBlocks(IHV0, y)
    ensures Md5Digest(x + last) == Md5Digest(y + last)
  {
    DigestAfterAligned(x, last);
    DigestAfterAligned(y, last);
  }

  // ---------------------------------------------------------------------------
  // Enumeration order (coll.py:156-165)
  // ---------------------------------------------------------------------------

  /**
    The choice vector of output `i`: divergence `j` takes bit `n - 1 - j` of `i` when
    the last divergence holds the least significant bit, and bit `j` otherwise.
    */
  function Selection(n: nat, i: nat, lsbLast: bool): (code: seq<Bit>)
    ensures |code| == n
  {
    if lsbLast then seq(n, j requires 0 <= j < n => BitOf(i, n - 1 - j))
    else seq(n, j requires 0 <= j < n => BitOf(i, j))
  }

  /** Every tuple of `ts` with `b` put in front. */
  function Prepend(b: Bit, ts: seq<seq<Bit>>): (r: seq<seq<Bit>>)
    ensures |r| == |ts|
  {
    seq(|ts|, k requires 0 <= k < |ts| => [b] + ts[k])
  }

  /** `itertools.product(range(2), repeat=n)`: all `n`-tuples of bits, the last varying fastest. */
  function Product(n: nat): (r: seq<seq<Bit>>)
    ensures |r| == Pow2(n)
    ensures forall k :: 0 <= k < |r| ==> |r[k]| == n
  {
    if n == 0 then [[]]
    else
      var t := Product(n - 1);
      Prepend(0, t) + Prepend(1, t)
  }

  /** `tuple(reversed(s))`. */
  function Reversed(s: seq<Bit>): (r: seq<Bit>)
    ensures |r| == |s|
  {
    seq(|s|, k requires 0 <= k < |s| => s[|s| - 1 - k])
  }

  /** Reversing twice gives the tuple back. */
  lemma ReversedTwice(s: seq<Bit>)
    ensures Reversed(Reversed(s)) == s
  {
    var r := Reversed(Reversed(s));
    forall k | 0 <= k < |s|
      ensures r[k] == s[k]
    {
      assert Reversed(s)[|s| - 1 - k] == s[k];
    }
  }

  /** The top bit of a number below `2^(m+1)` says whether it reaches `2^m`. */
  lemma {:induction false} BitOfTop(i: nat, m: nat)
    requires i < Pow2(m + 1)
    ensures BitOf(i, m) == if i < Pow2(m) then 0 else 1
  {
    if m > 0 {
      BitOfTop(i / 2, m - 1);
    }
  }

  /** Adding `2^m` leaves the bits below `m` alone. */
  lemma {:induction false} BitOfShift(i: nat, m: nat, k: nat)
    requires k < m
    ensures BitOf(i + Pow2(m), k) == BitOf(i, k)
  {
    assert Pow2(m) == 2 * Pow2(m - 1);
    if k > 0 {
      assert (i + Pow2(m)) / 2 == i / 2 + Pow2(m - 1);
      BitOfShift(i / 2, m - 1, k - 1);
    }
  }

  /** Tuple `i` of the `n`-fold product: its top bit, then tuple `i mod 2^(n-1)` of the smaller product. */
  lemma {:induction false} ProductAt(n: nat, i: nat)
    requires 0 < n && i < Pow2(n)
    ensures Product(n)[i] == [if i < Pow2(n - 1) then 0 else 1] + Product(n - 1)[if i < Pow2(n - 1) then i else i - Pow2(n - 1)]
  {
    var t := Product(n - 1);
    assert Product(n) == Prepend(0, t) + Prepend(1, t);
  }

  /** Below bit `m`, a number below `2^(m+1)` has the bits of its remainder modulo `2^m`. */
  lemma {:induction false} BitOfLow(i: nat, m: nat, k: nat)
    requires i < Pow2(m + 1) && k < m
    ensures (if i < Pow2(m) then i else i - Pow2(m)) < Pow2(m)
    ensures BitOf(i, k) == BitOf(if i < Pow2(m) then i else i - Pow2(m), k)
  {
    assert Pow2(m + 1) == 2 * Pow2(m);
    if i >= Pow2(m) {
      BitOfShift(i - Pow2(m), m, k);
    }
  }

  /** Position `j` of tuple `i` of the product holds bit `n - 1 - j` of `i`. */
  lemma {:induction false} ProductBit(n: nat, i: nat, j: nat)
    requires i < Pow2(n) && j < n
    ensures |Product(n)[i]| == n && Product(n)[i][j] == BitOf(i, n - 1 - j)
  {
    var low := if i < Pow2(n - 1) then i else i - Pow2(n - 1);
    ProductAt(n, i);
    if j == 0 {
      TopBitStep(i, n, Product(n)[i], Product(n - 1)[low]);
    } else {
      ProductBit(n - 1, low, j - 1);
      LowBitStep(i, n, j, Product(n)[i], Product(n - 1)[low]);
    }
  }

  /** The first position of tuple `i` holds the top bit of `i`. */
  lemma TopBitStep(i: nat, n: nat, row: seq<Bit>, rest: seq<Bit>)
    requires 0 < n && i < Pow2(n)
    requires row == [if i < Pow2(n - 1) then 0 else 1] + rest
    ensures row[0] == BitOf(i, n - 1)
  {
    BitOfTop(i, n - 1);
  }

  /** A later position of tuple `i` holds the bit the rest of the tuple holds for `i` below the top bit. */
  lemma LowBitStep(i: nat, n: nat, j: nat, row: seq<Bit>, rest: seq<Bit>)
    requires 0 < j < n && i < Pow2(n)
    requires row == [if i < Pow2(n - 1) then 0 else 1] + rest
    requires |rest| == n - 1
    requires rest[j - 1] == BitOf(if i < Pow2(n - 1) then i else i - Pow2(n - 1), n - 1 - j)
    ensures row[j] == BitOf(i, n - 1 - j)
  {
    BitOfLow(i, n - 1, n - 1 - j);
  }

  /** Tuple `i` of the product is `i` written in binary, most significant bit first. */
  lemma {:induction false} ProductIsCounting(n: nat, i: nat)
    requires i < Pow2(n)
    ensures Product(n)[i] == Selection(n, i, true)
  {
    var tup, code := Product(n)[i], Selection(n, i, true);
    forall j | 0 <= j < n
      ensures tup[j] == code[j]
    {
      ProductBit(n, i, j);
    }
  }

  /** Reversing a most-significant-first choice vector gives the least-significant-first one. */
  lemma {:induction false} SelectionReversed(n: nat, i: nat)
    ensures Reversed(Selection(n, i, true)) == Selection(n, i, false)
  {
  }

  /** The tuple `get_collisions` uses for its `i`-th output is `Selection(n, i, lsbLast)`. */
  lemma {:induction false} TupleIsSelection(n: nat, i: nat, lsbLast: bool)
    requires i < Pow2(n)
    ensures |Product(n)[i]| == n
    ensures (if lsbLast then Product(n)[i] else Reversed(Product(n)[i])) == Selection(n, i, lsbLast)
  {
    ProductIsCounting(n, i);
    SelectionReversed(n, i);
  }

  /** Numbers below `2^n` with the same `n` low bits are equal. */
  lemma {:induction false} BitsDetermine(i: nat, j: nat, n: nat)
    requires i < Pow2(n) && j < Pow2(n)
    requires forall k :: 0 <= k < n ==> BitOf(i, k) == BitOf(j, k)
    ensures i == j
  {
    if n > 0 {
      forall k | 0 <= k < n - 1
        ensures BitOf(i / 2, k) == BitOf(j / 2, k)
      {
        assert BitOf(i, k + 1) == BitOf(j, k + 1);
      }
      BitsDetermine(i / 2, j / 2, n - 1);
      assert BitOf(i, 0) == BitOf(j, 0);
    }
  }

  /** Different numbers below `2^n` get different choice vectors, in either bit order. */
  lemma SelectionInjective(n: nat, i: nat, j: nat, lsbLast: bool)
    requires i < Pow2(n) && j < Pow2(n)
    ensures Selection(n, i, lsbLast) == Selection(n, j, lsbLast) ==> i == j
  {
    if Selection(n, i, lsbLast) == Selection(n, j, lsbLast) {
      forall k | 0 <= k < n
        ensures BitOf(i, k) == BitOf(j, k)
      {
        var pos := if lsbLast then n - 1 - k else k;
        assert Selection(n, i, lsbLast)[pos] == Selection(n, j, lsbLast)[pos];
      }
      BitsDetermine(i, j, n);
    }
  }

  /** Output 0 takes the first block everywhere, so it is the stream the digester consumed. */
  lemma {:induction false} ItemZero(segs: seq<seq<Byte>>, div: seq<Pair>, lsbLast: bool)
    requires |segs| == |div| + 1
    ensures Item(segs, div, Selection(|div|, 0, lsbLast)) == Stream(segs, div)
  {
    var n := |div|;
    var code := Selection(n, 0, lsbLast);
    forall j | 0 <= j < n
      ensures code[j] == 0
    {
      BitOfZero(if lsbLast then n - 1 - j else j);
    }
    assert Blocks(div, code) == FirstBlocks(div);
    ZipJoinIsInterleaving(segs, FirstBlocks(div));
  }

  /** Every recorded pair is a collision, so its two blocks differ and have one length. */
  lemma RecordedAlternatives(segs: seq<seq<Byte>>, div: seq<Pair>)
    requires Recorded(segs, div)
    ensures forall k :: 0 <= k < |div| ==> Alternatives(div[k])
  {
    forall k | 0 <= k < |div|
      ensures Alternatives(div[k])
    {
      assert RecordedAt(segs, div, k);
    }
  }

  /** The outputs for two different choice numbers differ. */
  lemma ItemsDistinct(segs: seq<seq<Byte>>, div: seq<Pair>, lsbLast: bool, i: nat, j: nat)
    requires Recorded(segs, div) && i < j < Pow2(|div|)
    ensures Item(segs, div, Selection(|div|, i, lsbLast)) != Item(segs, div, Selection(|div|, j, lsbLast))
  {
    RecordedAlternatives(segs, div);
    ItemDeterminesCode(segs, div, Selection(|div|, i, lsbLast), Selection(|div|, j, lsbLast));
    SelectionInjective(|div|, i, j, lsbLast);
  }

  /** The choice vector `get_collisions` builds from tuple `i` of `product`: the tuple, or the tuple reversed. */
  function TupleCode(n: nat, i: nat, lsbLast: bool): (code: seq<Bit>)
    requires i < Pow2(n)
    ensures |code| == n
  {
    if lsbLast then Product(n)[i] else Reversed(Product(n)[i])
  }

  /** Output `i` of `get_collisions`: the segments joined with the blocks tuple `i` of `product` picks. */
  function Output(segs: seq<seq<Byte>>, div: seq<Pair>, lsbLast: bool, i: nat): seq<Byte>
    requires i < Pow2(|div|)
  {
    Item(segs, div, TupleCode(|div|, i, lsbLast))
  }

  /** The first `m` outputs of `get_collisions`, in order. */
  function Outputs(segs: seq<seq<Byte>>, div: seq<Pair>, lsbLast: bool, m: nat): (r: seq<seq<Byte>>)
    requires m <= Pow2(|div|)
    ensures |r| == m
  {
    seq(m, i requires 0 <= i < m => Output(segs, div, lsbLast, i))
  }

  /** Output `i` takes, at every choice point, the branch that `Selection` gives `i`. */
  lemma {:induction false} OutputsPointwise(segs: seq<seq<Byte>>, div: seq<Pair>, lsbLast: bool, m: nat)
    requires m <= Pow2(|div|)
    ensures forall i :: 0 <= i < m ==> Outputs(segs, div, lsbLast, m)[i] == Item(segs, div, Selection(|div|, i, lsbLast))
  {
    forall i | 0 <= i < m
      ensures Outputs(segs, div, lsbLast, m)[i] == Item(segs, div, Selection(|div|, i, lsbLast))
    {
      TupleIsSelection(|div|, i, lsbLast);
    }
  }

  /**
    What a list of outputs built by `Selection` delivers: output 0 is the stream, a
    collider without choice points yields its one segment, and when every choice point
    is aligned all outputs share the stream's length and MD5 digest.
    */
  lemma {:induction false} OutputsCollide(segs: seq<seq<Byte>>, div: seq<Pair>, items: seq<seq<Byte>>, lsbLast: bool)
    requires Recorded(segs, div) && |items| <= Pow2(|div|)
    requires forall i :: 0 <= i < |items| ==> items[i] == Item(segs, div, Selection(|div|, i, lsbLast))
    ensures |items| > 0 ==> items[0] == Stream(segs, div)
    ensures |div| == 0 && |items| > 0 ==> items == [segs[0]]
    ensures AlignedAt(segs, div) ==> forall i :: 0 <= i < |items| ==>
      |items[i]| == |Stream(segs, div)| && Md5Digest(items[i]) == Md5Digest(Stream(segs, div))
  {
    if |items| > 0 {
      ItemZero(segs, div, lsbLast);
    }
    if |div| == 0 && |items| > 0 {
      assert Stream(segs, div) == [] + segs[0] == segs[0];
      assert Pow2(0) == 1;
      assert items == [items[0]];
    }
    if AlignedAt(segs, div) {
      forall i | 0 <= i < |items|
        ensures |items[i]| == |Stream(segs, div)| && Md5Digest(items[i]) == Md5Digest(Stream(segs, div))
      {
        AllItemsCollide(segs, div, Selection(|div|, i, lsbLast));
      }
    }
  }

  /** How many outputs `get_collisions(count)` yields: `None` and `0` mean all `2^n`. */
  function Limit(count: Option<int>, n: nat): (c: nat)
    ensures c <= Pow2(n)
    ensures count.None? ==> c == Pow2(n)
    ensures count.Some? && count.value <= 0 ==> c == (if count.value == 0 then Pow2(n) else 0)
    ensures count.Some? && count.value > 0 ==> c == if count.value < Pow2(n) then count.value else Pow2(n)
  {
    var total := if count.None? || count.value == 0 then Pow2(n) else count.value;
    if total <= 0 then 0 else if total < Pow2(n) then total else Pow2(n)
  }

  /**
    The loop of `get_collisions` (coll.py:161-170): walks the bit tuples of
    `itertools.product` in order, stops after `count` of them, reverses each tuple when
    `lsbLast` is false, and joins the segments with the chosen blocks.
    */
  method Enumerate(segs: seq<seq<Byte>>, div: seq<Pair>, count: Option<int>, lsbLast: bool) returns (items: seq<seq<Byte>>)
    ensures items == Outputs(segs, div, lsbLast, Limit(count, |div|))
  {
    var n := |div|;
    var total: int := if count.None? || count.value == 0 then Pow2(n) else count.value;
    var tuples := Product(n);
    items := [];
    var i := 0;
    while i < |tuples|
      invariant 0 <= i <= |tuples| && |items| == i
      invariant i == 0 || i <= total
      invariant forall k :: 0 <= k < i ==> items[k] == Output(segs, div, lsbLast, k)
    {
      if i >= total {
        break;
      }
      var bincode := tuples[i];
      if !lsbLast {
        bincode := Reversed(bincode);
      }
      var blocks := Blocks(div, bincode);
      var out := ZipJoin(segs, blocks);
      items := items + [out];
      i := i + 1;
    }
    assert items == Outputs(segs, div, lsbLast, i);
  }

  /**
    The retry loop of `diverge`: asks `collide` about `ihv` until both blocks of its
    answer pass `f`. It ends because some answer passes; `attempt` is the number of the
    answer taken, and every earlier answer was rejected.
    */
  method Retry(ihv: seq<Byte>, f: Filter, collide: Oracle) returns (pair: Pair, attempt: nat)
    requires exists k: nat :: Accepts(f, collide(ihv, k))
    ensures pair == collide(ihv, attempt) && Accepts(f, pair)
    ensures forall k :: 0 <= k < attempt ==> !Accepts(f, collide(ihv, k))
  {
    ghost var w: nat :| Accepts(f, collide(ihv, w));
    attempt := 0;
    pair := collide(ihv, attempt);
    while !(f(pair.b0) && f(pair.b1))
      invariant attempt <= w && pair == collide(ihv, attempt)
      invariant forall k :: 0 <= k < attempt ==> !Accepts(f, collide(ihv, k))
      decreases w - attempt
    {
      attempt := attempt + 1;
      pair := collide(ihv, attempt);
    }
  }

  // ---------------------------------------------------------------------------
  // The Collider (coll.py:90-174)
  // ---------------------------------------------------------------------------

  /** Python's `if not pad: pad = self.pad`, an empty string standing for `None`. */
  function OrDefault(arg: seq<Byte>, default: seq<Byte>): seq<Byte>
  {
    if |arg| == 0 then default else arg
  }

  /**
    A non-empty argument is kept and an empty one replaced; the result is empty only when
    both are, and defaulting twice is defaulting once.
    */
  lemma OrDefaultChoice(arg: seq<Byte>, default: seq<Byte>)
    ensures |arg| > 0 ==> OrDefault(arg, default) == arg
    ensures |arg| == 0 ==> OrDefault(arg, default) == default
    ensures |OrDefault(arg, default)| == 0 <==> |arg| == 0 && |default| == 0
    ensures OrDefault(OrDefault(arg, default), default) == OrDefault(arg, default)
  {
  }

  class Collider {
    /** The segments between choice points; the last one is still growing. */
    var alldata: seq<seq<Byte>>
    /** The pair of blocks recorded at each choice point. */
    var div: seq<Pair>
    /** The length of the first-branch stream so far. */
    var dlen: nat
    /** The default padding byte string. */
    var pad: seq<Byte>
    /** The default block filter. */
    var blockfilter: Filter
    /** The running hasher, fed the first-branch stream. */
    var digester: MD5

    ghost predicate Valid()
      reads this, digester
    {
      && digester.Valid()
      && digester.iv == IHV0
      && Recorded(alldata, div)
      && digester.consumed == Stream(alldata, div)
      && dlen == |digester.consumed|
    }

    /** Every choice point so far sits on a block boundary. */
    ghost predicate Aligned()
      reads this
    {
      AlignedAt(alldata, div)
    }

    /** The IHV `collide` is asked about after padding with `pad` (or the default). */
    ghost function IhvAfterPad(pad: seq<Byte>): seq<Byte>
      reads this, digester
    {
      IntToBin(ChainBlocks(IHV0, digester.consumed + Md5lpad(dlen, OrDefault(pad, this.pad))))
    }

    /** A collider whose stream starts with `data` (a fresh hasher then `bincat(data)`, in one step). */
    constructor (data: seq<Byte>, pad: seq<Byte>, blockfilter: Filter)
      ensures Valid() && Aligned() && fresh(digester)
      ensures alldata == [data] && div == [] && dlen == |data|
      ensures this.pad == pad && this.blockfilter == blockfilter
    {
      alldata := [data];
      div := [];
      dlen := |data|;
      this.pad := pad;
      this.blockfilter := blockfilter;
      digester := new MD5(data);
      new;
      assert Stream(alldata, div) == [] + data;
    }

    /** `bincat`: appends `data` to the last segment and to the running hasher. */
    method Bincat(data: seq<Byte>)
      requires Valid()
      modifies this, digester
      ensures Valid() && Aligned() == old(Aligned())
      ensures alldata == AppendToLast(old(alldata), data) && div == old(div)
      ensures dlen == old(dlen) + |data| && digester.consumed == old(digester.consumed) + data
      ensures digester == old(digester) && pad == old(pad) && blockfilter == old(blockfilter)
    {
      BincatKeeps(alldata, div, data);
      dlen := dlen + |data|;
      digester.Update(data);
      alldata := AppendToLast(alldata, data);
    }

    /** `strcat`: the text is taken as its already-encoded bytes, and appended like `bincat`. */
    method Strcat(s: seq<Byte>)
      requires Valid()
      modifies this, digester
      ensures Valid() && Aligned() == old(Aligned())
      ensures alldata == AppendToLast(old(alldata), s) && div == old(div)
      ensures dlen == old(dlen) + |s| && digester.consumed == old(digester.consumed) + s
      ensures digester == old(digester) && pad == old(pad) && blockfilter == old(blockfilter)
    {
      Bincat(s);
    }

    /** `padnow`: pads the stream to a block boundary with `pad` (an empty `pad` means the default). */
    method Padnow(pad: seq<Byte>)
      requires Valid()
      modifies this, digester
      ensures Valid() && Aligned() == old(Aligned())
      ensures alldata == AppendToLast(old(alldata), Md5lpad(old(dlen), OrDefault(pad, old(this.pad))))
      ensures div == old(div)
      ensures dlen == old(dlen) + |Md5lpad(old(dlen), OrDefault(pad, old(this.pad)))|
      ensures digester.consumed == old(digester.consumed) + Md5lpad(old(dlen), OrDefault(pad, old(this.pad)))
      ensures |OrDefault(pad, old(this.pad))| == 1 ==> dlen % 64 == 0
      ensures digester == old(digester) && this.pad == old(this.pad) && blockfilter == old(blockfilter)
    {
      var p := if |pad| == 0 then this.pad else pad;
      var ndata := Md5lpad(dlen, p);
      Bincat(ndata);
    }

    /**
      `diverge`: pads, opens a new segment, asks `collide` for pairs until one passes the
      filter, records it and feeds its first block to the hasher. The loop ends because
      some answer passes; `attempt` is the number of the answer taken.
      */
    method Diverge(pad: seq<Byte>, blockfilter: Option<Filter>, collide: Oracle) returns (attempt: nat)
      requires Valid() && IsCollisionOracle(collide)
      requires exists k: nat :: Accepts(if blockfilter.None? then this.blockfilter else blockfilter.value, collide(IhvAfterPad(pad), k))
      modifies this, digester
      ensures Valid()
      ensures var padBytes := Md5lpad(old(dlen), OrDefault(pad, old(this.pad)));
        && alldata == AppendToLast(old(alldata), padBytes) + [[]]
        && div == old(div) + [collide(old(IhvAfterPad(pad)), attempt)]
        && dlen == old(dlen) + |padBytes| + 128
        && digester.consumed == old(digester.consumed) + padBytes + div[|div| - 1].b0
      ensures var f := if blockfilter.None? then old(this.blockfilter) else blockfilter.value;
        && Accepts(f, div[|div| - 1])
        && forall k :: 0 <= k < attempt ==> !Accepts(f, collide(old(IhvAfterPad(pad)), k))
      ensures digester == old(digester) && this.pad == old(this.pad) && this.blockfilter == old(this.blockfilter)
    {
      var p := OrDefault(pad, this.pad);
      var f := if blockfilter.None? then this.blockfilter else blockfilter.value;
      assert OrDefault(p, this.pad) == p;
      ghost var padded := digester.consumed + Md5lpad(dlen, p);
      assert |padded| == dlen + |Md5lpad(dlen, p)|;
      ghost var ihv := IhvAfterPad(pad);
      assert ihv == IntToBin(ChainBlocks(IHV0, padded));
      ghost var w: nat :| Accepts(f, collide(ihv, w));
      Padnow(p);
      assert digester.consumed == padded;
      assert CurrentIhv() == ihv;
      assert Accepts(f, collide(CurrentIhv(), w));
      attempt := OpenChoicePoint(f, collide);
    }

    /** The IHV the hasher reports now (`digester.ihv()`). */
    ghost function CurrentIhv(): seq<Byte>
      reads this, digester
    {
      IntToBin(ChainBlocks(IHV0, digester.consumed))
    }

    /**
      The rest of `diverge` once padded (coll.py:135-145): opens a new segment, takes
      the first answer of `collide` that passes `f`, records it and feeds its first
      block to the hasher.
      */
    method OpenChoicePoint(f: Filter, collide: Oracle) returns (attempt: nat)
      requires Valid() && IsCollisionOracle(collide)
      requires exists k: nat :: Accepts(f, collide(CurrentIhv(), k))
      modifies this, digester
      ensures Valid()
      ensures alldata == old(alldata) + [[]]
      ensures div == old(div) + [collide(old(CurrentIhv()), attempt)]
      ensures dlen == old(dlen) + 128
      ensures digester.consumed == old(digester.consumed) + div[|div| - 1].b0
      ensures Aligned() <==> old(Aligned()) && old(dlen) % 64 == 0
      ensures Accepts(f, div[|div| - 1])
      ensures forall k :: 0 <= k < attempt ==> !Accepts(f, collide(old(CurrentIhv()), k))
      ensures digester == old(digester) && pad == old(pad) && blockfilter == old(blockfilter)
    {
      var ihv := digester.Ihv();
      var pair;
      pair, attempt := Retry(ihv, f, collide);
      assert AnswerCollides(collide, ihv, attempt);
      DivergePrefixes(alldata, div, pair);
      DivergeRecords(alldata, div, pair);
      DivergeAligns(alldata, div, pair);
      alldata := alldata + [[]];
      dlen := dlen + |pair.b0|;
      digester.Update(pair.b0);
      div := div + [pair];
    }

    /** `assert_aligned`: passes exactly when the stream so far ends on a block boundary. */
    method AssertAligned() returns (ok: bool)
      requires Valid()
      ensures ok <==> |Stream(alldata, div)| % 64 == 0
    {
      ok := dlen % 64 == 0;
    }

    /**
      `safe_diverge`: fails, changing nothing, unless the stream is block-aligned; then
      it diverges with no padding, which keeps every choice point aligned whatever `pad` is.
      */
    method SafeDiverge(pad: seq<Byte>, blockfilter: Option<Filter>, collide: Oracle) returns (ok: bool, attempt: nat)
      requires Valid() && IsCollisionOracle(collide)
      requires dlen % 64 == 0 ==>
        exists k: nat :: Accepts(if blockfilter.None? then this.blockfilter else blockfilter.value, collide(IhvAfterPad(pad), k))
      modifies this, digester
      ensures Valid()
      ensures ok <==> old(dlen) % 64 == 0
      ensures !ok ==> alldata == old(alldata) && div == old(div) && dlen == old(dlen) && digester.consumed == old(digester.consumed)
      ensures ok ==>
        && alldata == old(alldata) + [[]]
        && div == old(div) + [collide(old(IntToBin(ChainBlocks(IHV0, digester.consumed))), attempt)]
        && dlen == old(dlen) + 128
        && digester.consumed == old(digester.consumed) + div[|div| - 1].b0
      ensures Aligned() <==> old(Aligned())
      ensures digester == old(digester) && this.pad == old(this.pad) && this.blockfilter == old(this.blockfilter)
      ensures ok ==> Accepts(if blockfilter.None? then old(this.blockfilter) else blockfilter.value, div[|div| - 1])
    {
      ok := AssertAligned();
      attempt := 0;
      if ok {
        assert dlen % 64 == 0;
        ghost var w: nat :| Accepts(if blockfilter.None? then this.blockfilter else blockfilter.value, collide(IhvAfterPad(pad), w));
        assert Md5lpad(dlen, OrDefault(pad, this.pad)) == [];
        AppendNothing(alldata);
        assert digester.consumed + [] == digester.consumed;
        ghost var segs, points := alldata, div;
        attempt := Diverge(pad, blockfilter, collide);
        DivergeAligns(segs, points, div[|div| - 1]);
      }
    }

    /**
      `get_collisions(count, lsb_last)`: output `i` takes, at every choice point, the
      branch that `Selection` gives it; there are `Limit(count, n)` outputs; output 0 is
      the stream the hasher consumed; and when every choice point is aligned every
      output has its MD5 digest.
      */
    method GetCollisions(count: Option<int>, lsbLast: bool) returns (items: seq<seq<Byte>>)
      requires Valid()
      ensures items == Outputs(alldata, div, lsbLast, Limit(count, |div|))
      ensures forall i :: 0 <= i < |items| ==> items[i] == Item(alldata, div, Selection(|div|, i, lsbLast))
      ensures |items| > 0 ==> items[0] == digester.consumed && |items[0]| == dlen
      ensures |div| == 0 && |items| > 0 ==> items == [alldata[0]]
      ensures Aligned() ==> forall i :: 0 <= i < |items| ==> |items[i]| == dlen && Md5Digest(items[i]) == Md5Digest(digester.consumed)
      ensures forall i, j :: 0 <= i < j < |items| ==> items[i] != items[j]
    {
      items := Enumerate(alldata, div, count, lsbLast);
      OutputsPointwise(alldata, div, lsbLast, |items|);
      OutputsCollide(alldata, div, items, lsbLast);
      forall i, j | 0 <= i < j < |items|
        ensures items[i] != items[j]
      {
        ItemsDistinct(alldata, div, lsbLast, i, j);
      }
    }

    /** Two calls of `get_collisions` with the same arguments give the same outputs. */
    method CollisionsRepeatable(count: Option<int>, lsbLast: bool) returns (first: seq<seq<Byte>>, second: seq<seq<Byte>>)
      requires Valid()
      ensures first == second
    {
      first := GetCollisions(count, lsbLast);
      second := GetCollisions(count, lsbLast);
    }

    /** `get_last_coll`: the last recorded pair, a collision from the stream before it (None when there is none). */
    method GetLastColl() returns (r: Option<Pair>)
      requires Valid()
      ensures r.None? <==> |div| == 0
      ensures r.Some? ==> r.value == div[|div| - 1]
      ensures r.Some? ==> CollidesFrom(ChainBlocks(IHV0, Prefix(alldata, FirstBlocks(div), |div| - 1)), r.value)
    {
      if |div| == 0 {
        r := None;
      } else {
        r := Some(div[|div| - 1]);
        assert RecordedAt(alldata, div, |div| - 1);
      }
    }
  }
}
