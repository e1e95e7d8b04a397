/**
 * The string arena as a value: what `StringArena` looks like at one moment, the
 * effect of each of its operations on that picture, and what those effects
 * leave alone.  The class in StringArena.dfy is proved to move from picture to
 * picture by exactly these functions.
 */
module ArenaImage {
  import opened Wrappers

  // One past the largest std::uint32_t.
  const WORD32: nat := 0x1_0000_0000

  /** static_cast<std::uint32_t> */
  function Cast32(n: nat): (r: nat)
    ensures r < WORD32
    ensures n < WORD32 ==> r == n
  {
    n % 0x1_0000_0000
  }

  /** newSize - oldSize, computed in std::size_t */
  function SizeDifference(newSize: nat, oldSize: nat): (r: nat)
    requires newSize < WORD32 && oldSize < WORD32
    ensures newSize >= oldSize ==> r == newSize - oldSize
    ensures newSize < oldSize ==> r > WORD32
  {
    (newSize - oldSize) % 0x1_0000_0000_0000_0000
  }

  datatype StringRef = StringRef(block: nat, offset: nat, size: nat)

  const NULL_REF := StringRef(0, 0, 0)

  datatype BlockImage = BlockImage(bytes: string, back: nat, dead: nat) {
    function Capacity(): nat { |bytes| }
    function Remaining(): int { |bytes| - back }
  }

  datatype Image = Image(blockSize: nat, dead: nat, blocks: seq<BlockImage>)

  /** How many bytes `overwrite` clears behind a shorter string. */
  datatype TailRule =
    | AsWritten  // string.size() - ref.size, in 64-bit unsigned arithmetic
    | Intended   // ref.size - string.size()

  function TailLength(rule: TailRule, newSize: nat, oldSize: nat): nat
    requires newSize <= oldSize < WORD32
  {
    match rule
    case AsWritten => SizeDifference(newSize, oldSize)
    case Intended => oldSize - newSize
  }

  // ----- totals over blocks

  datatype Tally = Tally(capacity: nat, used: nat, dead: nat)

  function Total(blocks: seq<BlockImage>): Tally {
    if blocks == [] then Tally(0, 0, 0)
    else
      var t := Total(blocks[..|blocks| - 1]);
      var b := blocks[|blocks| - 1];
      Tally(t.capacity + b.Capacity(), t.used + b.back, t.dead + b.dead)
  }

  lemma {:induction false} TotalAppend(blocks: seq<BlockImage>, b: BlockImage)
    ensures var t, t' := Total(blocks), Total(blocks + [b]);
            t' == Tally(t.capacity + b.Capacity(), t.used + b.back, t.dead + b.dead)
  {
    assert (blocks + [b])[..|blocks|] == blocks;
  }

  lemma {:induction false} TotalUpdate(blocks: seq<BlockImage>, i: nat, b: BlockImage)
    requires i < |blocks|
    ensures var t, t', o := Total(blocks), Total(blocks[i := b]), blocks[i];
            && t'.capacity + o.Capacity() == t.capacity + b.Capacity()
            && t'.used + o.back == t.used + b.back
            && t'.dead + o.dead == t.dead + b.dead
  {
    var n := |blocks| - 1;
    if i == n {
      assert blocks[i := b][..n] == blocks[..n];
    } else {
      assert blocks[i := b][..n] == blocks[..n][i := b];
      TotalUpdate(blocks[..n], i, b);
    }
  }

  // ----- well-formed pictures

  predicate ValidBlock(blockSize: nat, b: BlockImage) {
    && b.back <= b.Capacity() < WORD32
    && blockSize <= b.Capacity()
    && (b.Capacity() == blockSize || b.back == b.Capacity())
  }

  /** A block is only opened when the string at hand does not fit in the one before it. */
  predicate Packed(blocks: seq<BlockImage>) {
    forall i :: 0 < i < |blocks| ==> Covered(blocks, i)
  }

  predicate Covered(blocks: seq<BlockImage>, i: nat)
    requires 0 < i < |blocks|
  {
    blocks[i - 1].back + blocks[i].back > blocks[i - 1].Capacity()
  }

  predicate WellFormed(blockSize: nat, blocks: seq<BlockImage>) {
    && 0 < blockSize < WORD32
    && |blocks| > 0
    && (forall i :: 0 <= i < |blocks| ==> ValidBlock(blockSize, blocks[i]))
    && Packed(blocks)
  }

  predicate Valid(a: Image) {
    && WellFormed(a.blockSize, a.blocks)
    && a.dead == Total(a.blocks).dead
  }

  lemma BlockParts(a: Image, i: nat)
    requires Valid(a) && i < |a.blocks|
    ensures ValidBlock(a.blockSize, a.blocks[i])
  {
  }

  lemma BacksFit(a: Image)
    requires Valid(a)
    ensures |a.blocks| > 0 && forall b :: b in a.blocks ==> b.back <= |b.bytes|
  {
  }

  /** Either empty, or a range of bytes that some block has handed out. */
  predicate ValidRef(a: Image, ref: StringRef) {
    && ref.offset + ref.size < WORD32
    && (ref.size == 0 ||
        (ref.block < |a.blocks| && ref.offset + ref.size <= a.blocks[ref.block].back))
  }

  predicate Disjoint(p: StringRef, q: StringRef) {
    || p.size == 0
    || q.size == 0
    || p.block != q.block
    || p.offset + p.size <= q.offset
    || q.offset + q.size <= p.offset
  }

  // ----- operations

  function Fresh(capacity: nat): BlockImage {
    BlockImage(Zeros(capacity), 0, 0)
  }

  function Zeros(n: nat): (s: string)
    ensures |s| == n
  {
    seq(n, _ => '\0')
  }

  /** `t` copied over the bytes of `s` that start at `at`. */
  function Splice(s: string, at: nat, t: string): (r: string)
    requires at + |t| <= |s|
    ensures |r| == |s|
  {
    s[..at] + t + s[at + |t|..]
  }

  lemma SpliceReads(s: string, at: nat, t: string)
    requires at + |t| <= |s|
    ensures Splice(s, at, t)[at..at + |t|] == t
    ensures Splice(s, at, t)[..at] == s[..at]
    ensures Splice(s, at, t)[at + |t|..] == s[at + |t|..]
  {
  }

  function Empty(blockSize: nat): Image {
    Image(blockSize, 0, [Fresh(blockSize)])
  }

  function Max(x: nat, y: nat): nat {
    if x >= y then x else y
  }

  /** The picture just before a non-empty string is copied in: a new block only when needed. */
  function WithRoom(a: Image, n: nat): Image {
    if |a.blocks| == 0 || a.blocks[|a.blocks| - 1].Remaining() < n
    then a.(blocks := a.blocks + [Fresh(Max(a.blockSize, n))])
    else a
  }

  function Appended(b: BlockImage, s: string): BlockImage
    requires b.back + |s| <= |b.bytes|
  {
    BlockImage(Splice(b.bytes, b.back, s), b.back + |s|, b.dead)
  }

  function Stored(a: Image, s: string): (r: (Image, StringRef))
    requires Valid(a)
  {
    if s == "" then (a, NULL_REF)
    else
      var room := WithRoom(a, |s|);
      var n := |room.blocks| - 1;
      var b := room.blocks[n];
      (room.(blocks := room.blocks[n := Appended(b, s)]),
       StringRef(n, Cast32(b.back), Cast32(|s|)))
  }

  /** A reference whose `offset + size` wraps would make the program read outside
      the block; every `ValidRef` is free of that, and the last branch is never theirs. */
  function View(a: Image, ref: StringRef): string {
    if ref.size == 0 then ""
    else if ref.block >= |a.blocks| then ""
    else
      var b := a.blocks[ref.block];
      if Cast32(ref.offset + ref.size) > b.back then ""
      else if ref.offset + ref.size > |b.bytes| then ""
      else b.bytes[ref.offset..ref.offset + ref.size]
  }

  /** `None` when the clearing of the tail runs past the end of the block. */
  function Overwritten(rule: TailRule, a: Image, ref: StringRef, s: string): Option<(Image, StringRef)>
    requires Valid(a)
    requires |s| <= ref.size
    requires ref.offset + ref.size < WORD32
  {
    if ref.size == 0 || ref.block >= |a.blocks| || ref.offset + ref.size > a.blocks[ref.block].back
    then Some((a, NULL_REF))
    else
      var b := a.blocks[ref.block];
      var tail := TailLength(rule, |s|, ref.size);
      if ref.offset + |s| + tail > |b.bytes| then None
      else
        var copied := Splice(b.bytes, ref.offset, s);
        var cleared := Splice(copied, ref.offset + |s|, Zeros(tail));
        Some((a.(blocks := a.blocks[ref.block := b.(bytes := cleared)]),
              StringRef(ref.block, ref.offset, Cast32(|s|))))
  }

  /** The string's bytes are cleared and counted as dead; `false` for a reference outside the arena. */
  function Removed(a: Image, ref: StringRef): (Image, bool)
    requires Valid(a)
  {
    if ref.block >= |a.blocks| then (a, false)
    else
      var b := a.blocks[ref.block];
      if ref.offset >= b.back || ref.size > b.back - ref.offset then (a, false)
      else
        var b' := BlockImage(Splice(b.bytes, ref.offset, Zeros(ref.size)), b.back, b.dead + ref.size);
        (Image(a.blockSize, a.dead + ref.size, a.blocks[ref.block := b']), true)
  }

  // ----- what the operations keep

  lemma EmptyValid(blockSize: nat)
    requires 0 < blockSize < WORD32
    ensures Valid(Empty(blockSize))
    ensures Total(Empty(blockSize).blocks) == Tally(blockSize, 0, 0)
  {
    TotalAppend([], Fresh(blockSize));
    assert [] + [Fresh(blockSize)] == Empty(blockSize).blocks;
  }

  lemma WithRoomKeeps(a: Image, n: nat)
    requires Valid(a) && 0 < n < WORD32
    ensures var r := WithRoom(a, n);
            && 0 < |a.blocks| <= |r.blocks|
            && r.blocks[..|a.blocks|] == a.blocks
            && (|r.blocks| > |a.blocks| ==>
                  && r.blocks == a.blocks + [Fresh(Max(a.blockSize, n))]
                  && a.blocks[|a.blocks| - 1].Remaining() < n)
            && r.blocks[|r.blocks| - 1].Remaining() >= n
            && Total(r.blocks).capacity >= Total(a.blocks).capacity
            && Total(r.blocks).used == Total(a.blocks).used
            && Total(r.blocks).dead == Total(a.blocks).dead
  {
    TotalAppend(a.blocks, Fresh(Max(a.blockSize, n)));
  }

  /** A block may be rewritten, and filled further, where it stands. */
  lemma BlockRewritten(blockSize: nat, blocks: seq<BlockImage>, n: nat, b: BlockImage)
    requires WellFormed(blockSize, blocks)
    requires n < |blocks|
    requires b.Capacity() == blocks[n].Capacity() && blocks[n].back <= b.back
    requires ValidBlock(blockSize, b)
    ensures WellFormed(blockSize, blocks[n := b])
  {
    var bs := blocks[n := b];
    forall i | 0 <= i < |bs|
      ensures ValidBlock(blockSize, bs[i])
    {
      assert ValidBlock(blockSize, if i == n then b else blocks[i]);
    }
    forall i | 0 < i < |bs|
      ensures Covered(bs, i)
    {
      assert Covered(blocks, i);
    }
  }

  lemma BlockOpened(blockSize: nat, blocks: seq<BlockImage>, b: BlockImage)
    requires WellFormed(blockSize, blocks)
    requires blocks[|blocks| - 1].Remaining() < b.back
    requires ValidBlock(blockSize, b)
    ensures WellFormed(blockSize, blocks + [b])
  {
    var bs := blocks + [b];
    forall i | 0 < i < |bs|
      ensures Covered(bs, i)
    {
      if i < |blocks| {
        assert Covered(blocks, i);
      }
    }
  }

  lemma AppendedWellFormed(a: Image, s: string)
    requires WellFormed(a.blockSize, a.blocks) && 0 < |s| < WORD32
    ensures var room := WithRoom(a, |s|);
            var n := |room.blocks| - 1;
            var b := room.blocks[n];
            b.back + |s| <= |b.bytes| && WellFormed(a.blockSize, room.blocks[n := Appended(b, s)])
  {
    var room := WithRoom(a, |s|);
    var n := |room.blocks| - 1;
    var b := Appended(room.blocks[n], s);
    if room == a {
      BlockRewritten(a.blockSize, a.blocks, n, b);
    } else {
      BlockOpened(a.blockSize, a.blocks, b);
      assert room.blocks[n := b] == a.blocks + [b];
    }
  }

  lemma AppendedTotals(a: Image, s: string)
    requires Valid(a) && 0 < |s| < WORD32
    ensures var (t, t') := (Total(a.blocks), Total(Stored(a, s).0.blocks));
            t'.dead == t.dead && t'.used == t.used + |s| && t'.capacity >= t.capacity
  {
    hide WellFormed, WithRoom, Total;
    WithRoomKeeps(a, |s|);
    var room := WithRoom(a, |s|);
    var n := |room.blocks| - 1;
    TotalUpdate(room.blocks, n, Appended(room.blocks[n], s));
  }

  /** Two references that do not touch: rewriting the bytes of one leaves the other's view alone. */
  lemma SpliceElsewhere(a: Image, n: nat, b: BlockImage, at: nat, t: string, q: StringRef)
    requires n < |a.blocks| && ValidRef(a, q)
    requires a.blocks[n].back <= b.back
    requires at + |t| <= |a.blocks[n].bytes|
    requires b.bytes == Splice(a.blocks[n].bytes, at, t)
    requires t == "" || q.size == 0 || q.block != n || q.offset + q.size <= at || at + |t| <= q.offset
    requires a.blocks[n].back <= |a.blocks[n].bytes|
    ensures var a' := a.(blocks := a.blocks[n := b]);
            ValidRef(a', q) && View(a', q) == View(a, q)
  {
    if q.size != 0 && q.block == n {
      var (s, s') := (a.blocks[n].bytes, b.bytes);
      assert s'[q.offset..q.offset + q.size] == s[q.offset..q.offset + q.size];
    }
  }

  lemma ViewReads(a: Image, ref: StringRef)
    requires ValidRef(a, ref) && ref.size > 0
    requires a.blocks[ref.block].back <= |a.blocks[ref.block].bytes|
    ensures View(a, ref) == a.blocks[ref.block].bytes[ref.offset..ref.offset + ref.size]
  {
  }

  lemma StoredReads(a: Image, s: string)
    requires Valid(a) && 0 < |s| < WORD32
    ensures var (a', r) := Stored(a, s);
            ValidRef(a', r) && r.size == |s| && View(a', r) == s
  {
    WithRoomKeeps(a, |s|);
    var room := WithRoom(a, |s|);
    var n := |room.blocks| - 1;
    var b := room.blocks[n];
    assert b.back + |s| <= |b.bytes| < WORD32;
    SpliceReads(b.bytes, b.back, s);
    var (a', r) := Stored(a, s);
    assert a'.blocks[n] == Appended(b, s);
    assert r == StringRef(n, b.back, |s|);
    ViewReads(a', r);
  }

  lemma StoredElsewhere(a: Image, s: string, q: StringRef)
    requires Valid(a) && 0 < |s| < WORD32 && ValidRef(a, q)
    ensures var (a', r) := Stored(a, s);
            ValidRef(a', q) && View(a', q) == View(a, q) && Disjoint(q, r)
  {
    WithRoomKeeps(a, |s|);
    var room := WithRoom(a, |s|);
    var n := |room.blocks| - 1;
    var b := room.blocks[n];
    if q.size != 0 {
      assert room.blocks[q.block] == a.blocks[q.block];
    }
    assert ValidRef(room, q) && View(room, q) == View(a, q);
    SpliceElsewhere(room, n, Appended(b, s), b.back, s, q);
  }

  /** Storing keeps every reference handed out before, and hands out bytes nobody holds. */
  lemma StoredKeeps(a: Image, s: string)
    requires Valid(a) && |s| < WORD32
    ensures var (a', r) := Stored(a, s);
            && Valid(a')
            && a'.blockSize == a.blockSize
            && a'.dead == a.dead
            && Total(a'.blocks).used == Total(a.blocks).used + |s|
            && Total(a'.blocks).capacity >= Total(a.blocks).capacity
            && ValidRef(a', r) && r.size == |s| && View(a', r) == s
            && (s == "" ==> r == NULL_REF)
            && forall q :: ValidRef(a, q) ==> ValidRef(a', q) && View(a', q) == View(a, q) && Disjoint(q, r)
  {
    if s != "" {
      AppendedWellFormed(a, s);
      AppendedTotals(a, s);
      StoredReads(a, s);
      forall q | ValidRef(a, q)
        ensures var (a', r) := Stored(a, s);
                ValidRef(a', q) && View(a', q) == View(a, q) && Disjoint(q, r)
      {
        StoredElsewhere(a, s, q);
      }
    }
  }

  /** The new bytes followed by the cleared tail, as one write over the old string. */
  lemma TwoSplices(s: string, at: nat, t: string, u: string)
    requires at + |t| + |u| <= |s|
    ensures Splice(Splice(s, at, t), at + |t|, u) == Splice(s, at, t + u)
  {
  }

  /** `overwrite` as the two writes that the program performs. */
  lemma TwoWrites(rule: TailRule, a: Image, ref: StringRef, s: string)
    requires Valid(a) && |s| <= ref.size && ref.offset + ref.size < WORD32
    requires 0 < ref.size && ref.block < |a.blocks| && ref.offset + ref.size <= a.blocks[ref.block].back
    requires ref.offset + |s| + TailLength(rule, |s|, ref.size) <= |a.blocks[ref.block].bytes|
    ensures var (b, tail) := (a.blocks[ref.block], Zeros(TailLength(rule, |s|, ref.size)));
            var b1 := BlockImage(Splice(b.bytes, ref.offset, s), b.back, b.dead);
            var b2 := BlockImage(Splice(b1.bytes, ref.offset + |s|, tail), b.back, b.dead);
            Overwritten(rule, a, ref, s) ==
            Some((a.(blocks := a.blocks[ref.block := b1][ref.block := b2]), StringRef(ref.block, ref.offset, |s|)))
  {
    BlockParts(a, ref.block);
    var (n, b, tail) := (ref.block, a.blocks[ref.block], Zeros(TailLength(rule, |s|, ref.size)));
    var b1 := BlockImage(Splice(b.bytes, ref.offset, s), b.back, b.dead);
    var b2 := BlockImage(Splice(b1.bytes, ref.offset + |s|, tail), b.back, b.dead);
    assert a.blocks[n := b1][n := b2] == a.blocks[n := b2];
  }

  lemma OverwrittenElsewhere(rule: TailRule, a: Image, ref: StringRef, s: string, q: StringRef)
    requires Valid(a) && ValidRef(a, ref) && |s| <= ref.size && ref.size != 0
    requires TailLength(rule, |s|, ref.size) == ref.size - |s|
    requires Overwritten(rule, a, ref, s).Some?
    requires ValidRef(a, q)
    ensures var a' := Overwritten(rule, a, ref, s).value.0;
            ValidRef(a', q) && (Disjoint(q, ref) ==> View(a', q) == View(a, q))
  {
    var a' := Overwritten(rule, a, ref, s).value.0;
    if Disjoint(q, ref) {
      var tail := Zeros(ref.size - |s|);
      TwoSplices(a.blocks[ref.block].bytes, ref.offset, s, tail);
      SpliceElsewhere(a, ref.block, a'.blocks[ref.block], ref.offset, s + tail, q);
    }
  }

  /** In-place overwrite: memory-safe exactly when the tail to clear is the one meant. */
  lemma OverwriteSafety(rule: TailRule, a: Image, ref: StringRef, s: string)
    requires Valid(a) && ValidRef(a, ref) && |s| <= ref.size
    ensures Overwritten(rule, a, ref, s) == None <==> rule.AsWritten? && |s| < ref.size
    ensures Overwritten(rule, a, ref, s).Some? ==> TailLength(rule, |s|, ref.size) == ref.size - |s|
  {
  }

  lemma OverwrittenValid(rule: TailRule, a: Image, ref: StringRef, s: string)
    requires Valid(a) && ValidRef(a, ref) && |s| <= ref.size
    requires Overwritten(rule, a, ref, s).Some?
    ensures var a' := Overwritten(rule, a, ref, s).value.0;
            && Valid(a')
            && a'.blockSize == a.blockSize && a'.dead == a.dead
            && Total(a'.blocks) == Total(a.blocks)
  {
    if ref.size != 0 {
      var b := Overwritten(rule, a, ref, s).value.0.blocks[ref.block];
      assert ValidBlock(a.blockSize, a.blocks[ref.block]);
      BlockRewritten(a.blockSize, a.blocks, ref.block, b);
      TotalUpdate(a.blocks, ref.block, b);
    }
  }

  lemma OverwrittenReads(rule: TailRule, a: Image, ref: StringRef, s: string)
    requires Valid(a) && ValidRef(a, ref) && |s| <= ref.size
    requires TailLength(rule, |s|, ref.size) == ref.size - |s|
    requires Overwritten(rule, a, ref, s).Some?
    ensures var (a', r) := Overwritten(rule, a, ref, s).value;
            && ValidRef(a', r) && r.size == |s| && View(a', r) == s
            && (ref.size == 0 ==> r == NULL_REF)
            && View(a', ref) == s + Zeros(ref.size - |s|)
  {
    if ref.size != 0 {
      var b := a.blocks[ref.block];
      assert b.back <= |b.bytes|;
      var tail := Zeros(ref.size - |s|);
      TwoSplices(b.bytes, ref.offset, s, tail);
      SpliceReads(b.bytes, ref.offset, s + tail);
      var b' := Overwritten(rule, a, ref, s).value.0.blocks[ref.block].bytes;
      assert s == b'[ref.offset..ref.offset + ref.size][..|s|];
      ViewReads(Overwritten(rule, a, ref, s).value.0, ref);
      if s != "" {
        ViewReads(Overwritten(rule, a, ref, s).value.0, StringRef(ref.block, ref.offset, |s|));
      }
    }
  }

  lemma OverwrittenKeeps(rule: TailRule, a: Image, ref: StringRef, s: string)
    requires Valid(a) && ValidRef(a, ref) && |s| <= ref.size
    requires Overwritten(rule, a, ref, s).Some?
    ensures var (a', r) := Overwritten(rule, a, ref, s).value;
            && Valid(a')
            && a'.blockSize == a.blockSize && a'.dead == a.dead
            && Total(a'.blocks) == Total(a.blocks)
            && ValidRef(a', r) && r.size == |s| && View(a', r) == s
            && (ref.size == 0 ==> r == NULL_REF)
            && View(a', ref) == s + Zeros(ref.size - |s|)
            && (forall q :: Disjoint(q, ref) ==> Disjoint(q, r))
            && (forall q :: ValidRef(a, q) ==>
                  ValidRef(a', q) && (Disjoint(q, ref) ==> View(a', q) == View(a, q)))
  {
    OverwriteSafety(rule, a, ref, s);
    OverwrittenValid(rule, a, ref, s);
    OverwrittenReads(rule, a, ref, s);
    if ref.size != 0 {
      forall q | ValidRef(a, q)
        ensures var a' := Overwritten(rule, a, ref, s).value.0;
                ValidRef(a', q) && (Disjoint(q, ref) ==> View(a', q) == View(a, q))
      {
        OverwrittenElsewhere(rule, a, ref, s, q);
      }
    }
  }

  lemma RemovedValid(a: Image, ref: StringRef)
    requires Valid(a) && ValidRef(a, ref)
    ensures var a' := Removed(a, ref).0;
            && Valid(a')
            && a'.blockSize == a.blockSize
            && a'.dead == a.dead + ref.size
            && Total(a'.blocks).used == Total(a.blocks).used
            && Total(a'.blocks).capacity == Total(a.blocks).capacity
  {
    var (a', ok) := Removed(a, ref);
    if ok {
      var b := a.blocks[ref.block];
      assert ValidBlock(a.blockSize, b);
      BlockRewritten(a.blockSize, a.blocks, ref.block, a'.blocks[ref.block]);
      TotalUpdate(a.blocks, ref.block, a'.blocks[ref.block]);
    }
  }

  lemma RemovedReads(a: Image, ref: StringRef)
    requires Valid(a) && ValidRef(a, ref) && ref.size > 0
    ensures var (a', ok) := Removed(a, ref);
            ok && View(a', ref) == Zeros(ref.size)
  {
    var b := a.blocks[ref.block];
    assert b.back <= |b.bytes|;
    SpliceReads(b.bytes, ref.offset, Zeros(ref.size));
    ViewReads(Removed(a, ref).0, ref);
  }

  /** Removing clears the string's bytes, counts them as dead, and touches no other string. */
  lemma RemovedKeeps(a: Image, ref: StringRef)
    requires Valid(a) && ValidRef(a, ref)
    ensures var (a', ok) := Removed(a, ref);
            && Valid(a')
            && a'.blockSize == a.blockSize
            && a'.dead == a.dead + ref.size
            && Total(a'.blocks).used == Total(a.blocks).used
            && Total(a'.blocks).capacity == Total(a.blocks).capacity
            && (ref.size > 0 ==>
                  && ok && View(a', ref) == Zeros(ref.size)
                  && a'.blocks[ref.block].dead == a.blocks[ref.block].dead + ref.size)
            && (forall q :: ValidRef(a, q) ==>
                  ValidRef(a', q) && (Disjoint(q, ref) ==> View(a', q) == View(a, q)))
  {
    RemovedValid(a, ref);
    if ref.size > 0 {
      RemovedReads(a, ref);
    }
    var (a', ok) := Removed(a, ref);
    if ok {
      forall q | ValidRef(a, q)
        ensures ValidRef(a', q) && (Disjoint(q, ref) ==> View(a', q) == View(a, q))
      {
        if Disjoint(q, ref) {
          SpliceElsewhere(a, ref.block, a'.blocks[ref.block], ref.offset, Zeros(ref.size), q);
        }
      }
    }
  }

  lemma ZerosAre(n: nat)
    ensures forall i :: 0 <= i < n ==> Zeros(n)[i] as int == 0
  {
  }

  /** A reference whose range was not handed out: nothing is read, written or removed. */
  lemma OutsideArena(rule: TailRule, a: Image, ref: StringRef, s: string)
    requires Valid(a) && ref.offset + ref.size < WORD32 && 0 < ref.size
    requires ref.block < |a.blocks| ==> ref.offset + ref.size > a.blocks[ref.block].back
    ensures View(a, ref) == "" && Removed(a, ref) == (a, false)
    ensures |s| <= ref.size ==> Overwritten(rule, a, ref, s) == Some((a, NULL_REF))
  {
  }

  // ----- how much room is wasted

  /** Every block but the last is covered by its own bytes and those of the next block. */
  lemma {:induction false} PackedPrefix(blocks: seq<BlockImage>, k: nat)
    requires Packed(blocks) && 0 < k <= |blocks|
    ensures Total(blocks[..k - 1]).capacity + blocks[k - 1].back <= 2 * Total(blocks[..k]).used
  {
    assert blocks[..k][..k - 1] == blocks[..k - 1];
    if k > 1 {
      PackedPrefix(blocks, k - 1);
      assert blocks[..k - 1][..k - 2] == blocks[..k - 2];
      assert Covered(blocks, k - 1);
    }
  }

  /** The allocated capacity never exceeds twice the bytes handed out plus one block. */
  lemma FragmentationBound(a: Image)
    requires Valid(a)
    ensures Total(a.blocks).capacity <= 2 * Total(a.blocks).used + a.blockSize
  {
    var n := |a.blocks|;
    assert a.blocks[..n] == a.blocks;
    PackedPrefix(a.blocks, n);
    assert ValidBlock(a.blockSize, a.blocks[n - 1]);
  }

  lemma {:induction false} TotalsBounded(blockSize: nat, blocks: seq<BlockImage>)
    requires forall i :: 0 <= i < |blocks| ==> ValidBlock(blockSize, blocks[i])
    ensures Total(blocks).used <= Total(blocks).capacity
    ensures |blocks| * blockSize <= Total(blocks).capacity
  {
    if blocks != [] {
      var n := |blocks| - 1;
      assert forall i :: 0 <= i < n ==> blocks[..n][i] == blocks[i];
      TotalsBounded(blockSize, blocks[..n]);
      assert ValidBlock(blockSize, blocks[n]);
      assert (n + 1) * blockSize == n * blockSize + blockSize;
    }
  }

  /** The 32-bit block index of a reference is exact as long as the arena stays below
      2^32 blocks' worth of memory (2^48 bytes for the 64 KiB blocks of the map). */
  lemma BlockIndexFits(a: Image)
    requires Valid(a)
    requires Total(a.blocks).capacity < WORD32 * a.blockSize
    ensures |a.blocks| < WORD32
  {
    TotalsBounded(a.blockSize, a.blocks);
    if |a.blocks| >= WORD32 {
      ProductGrows(WORD32, |a.blocks|, a.blockSize);
    }
  }

  lemma ProductGrows(m: nat, n: nat, k: nat)
    requires m <= n
    ensures m * k <= n * k
  {
  }
}
