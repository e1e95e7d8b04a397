/** `StringArena::compact_into`: all blocks copied back to back, and where each string lands. */
module Compaction {
  import opened ArenaImage

  function Compacted(blocks: seq<BlockImage>): string
    requires forall b :: b in blocks ==> b.back <= |b.bytes|
  {
    if blocks == [] then ""
    else
      var b := blocks[|blocks| - 1];
      Compacted(blocks[..|blocks| - 1]) + b.bytes[..b.back]
  }

  /** Where block `n` starts in the compacted bytes. */
  function Start(blocks: seq<BlockImage>, n: nat): nat
    requires n <= |blocks|
  {
    Total(blocks[..n]).used
  }

  /** `offset_of`: the table entry and the sum are both kept in 32 bits. */
  function OffsetOf(starts: seq<nat>, ref: StringRef): nat
    requires ref.block < |starts|
  {
    Cast32(starts[ref.block] + ref.offset)
  }

  /** The table that `compact_into` fills in. */
  predicate Layout(blocks: seq<BlockImage>, starts: seq<nat>) {
    && |starts| == |blocks|
    && forall i :: 0 <= i < |blocks| ==> starts[i] == Cast32(Start(blocks, i))
  }

  lemma {:induction false} StartGrows(blocks: seq<BlockImage>, m: nat, n: nat)
    requires m < n <= |blocks|
    ensures Start(blocks, m) + blocks[m].back <= Start(blocks, n)
    decreases n
  {
    assert blocks[..n][..n - 1] == blocks[..n - 1];
    if m < n - 1 {
      StartGrows(blocks, m, n - 1);
    }
  }

  lemma {:induction false} CompactedBlock(blocks: seq<BlockImage>, n: nat)
    requires n < |blocks|
    requires forall b :: b in blocks ==> b.back <= |b.bytes|
    ensures |Compacted(blocks)| == Total(blocks).used
    ensures var (s, b) := (Start(blocks, n), blocks[n]);
            s + b.back <= |Compacted(blocks)| && Compacted(blocks)[s..s + b.back] == b.bytes[..b.back]
  {
    var k := |blocks| - 1;
    var head := blocks[..k];
    if k > 0 {
      CompactedBlock(head, if n < k then n else 0);
    }
    if n < k {
      assert head[..n] == blocks[..n];
      var (s, b) := (Start(blocks, n), blocks[n]);
      assert Compacted(blocks)[s..s + b.back] == Compacted(head)[s..s + b.back];
    }
  }

  lemma CompactedStart(blocks: seq<BlockImage>)
    ensures Start(blocks, 0) == 0 && Compacted(blocks[..0]) == ""
    ensures Start(blocks, |blocks|) == Total(blocks).used
  {
    assert blocks[..|blocks|] == blocks;
  }

  /** One turn of the copying loop. */
  lemma CompactedStep(blocks: seq<BlockImage>, i: nat)
    requires i < |blocks|
    requires forall b :: b in blocks ==> b.back <= |b.bytes|
    ensures Compacted(blocks[..i + 1]) == Compacted(blocks[..i]) + blocks[i].bytes[..blocks[i].back]
    ensures Start(blocks, i) + blocks[i].back == Start(blocks, i + 1) <= Total(blocks).used
  {
    assert blocks[..i + 1][..i] == blocks[..i];
    assert blocks[..|blocks|] == blocks;
    if i + 1 < |blocks| {
      StartGrows(blocks, i + 1, |blocks|);
    }
  }

  lemma PlacedAt(blocks: seq<BlockImage>, n: nat, offset: nat, size: nat)
    requires n < |blocks| && offset + size <= blocks[n].back
    requires forall b :: b in blocks ==> b.back <= |b.bytes|
    ensures var at := Start(blocks, n) + offset;
            && at + size <= |Compacted(blocks)|
            && Compacted(blocks)[at..at + size] == blocks[n].bytes[offset..offset + size]
  {
    CompactedBlock(blocks, n);
    SubSlice(Compacted(blocks), blocks[n].bytes, Start(blocks, n), blocks[n].back, offset, size);
  }

  /** Every string is found again at its start in the compacted bytes, and `offset_of` reports
      that position exactly when it fits in 32 bits. */
  lemma CompactedReads(a: Image, starts: seq<nat>, ref: StringRef)
    requires Valid(a) && ValidRef(a, ref) && ref.size > 0
    requires Layout(a.blocks, starts)
    ensures forall b :: b in a.blocks ==> b.back <= |b.bytes|
    ensures var at := Start(a.blocks, ref.block) + ref.offset;
            && at + ref.size <= |Compacted(a.blocks)|
            && Compacted(a.blocks)[at..at + ref.size] == View(a, ref)
            && (OffsetOf(starts, ref) == at <==> at < WORD32)
  {
    assert forall b :: b in a.blocks ==> ValidBlock(a.blockSize, b);
    PlacedAt(a.blocks, ref.block, ref.offset, ref.size);
    ViewReads(a, ref);
    OffsetExact(Start(a.blocks, ref.block), ref.offset);
  }

  lemma SubSlice(all: string, bytes: string, s: nat, back: nat, offset: nat, size: nat)
    requires back <= |bytes| && s + back <= |all| && all[s..s + back] == bytes[..back]
    requires offset + size <= back
    ensures all[s + offset..s + offset + size] == bytes[offset..offset + size]
  {
    assert forall k :: 0 <= k < back ==> all[s + k] == all[s..s + back][k] == bytes[k];
  }

  lemma OffsetExact(start: nat, offset: nat)
    ensures Cast32(Cast32(start) + offset) == start + offset <==> start + offset < WORD32
  {
  }

  /** `n` blocks, all of them full. */
  function Full(size: nat, n: nat): Image {
    Image(size, 0, seq(n, _ => BlockImage(Zeros(size), size, 0)))
  }

  lemma {:induction false} FullTotal(size: nat, n: nat)
    ensures Total(Full(size, n).blocks) == Tally(n * size, n * size, 0)
  {
    if n > 0 {
      FullTotal(size, n - 1);
      assert Full(size, n).blocks[..n - 1] == Full(size, n - 1).blocks;
    }
  }

  /** With 65,536 full blocks of 64 KiB before it, the first string of the next block is reported at offset 0. */
  lemma OffsetWraps(starts: seq<nat>)
    requires Layout(Full(65536, 65537).blocks, starts)
    ensures var (a, ref) := (Full(65536, 65537), StringRef(65536, 0, 1));
            && Valid(a) && ValidRef(a, ref)
            && Start(a.blocks, ref.block) + ref.offset == WORD32 && OffsetOf(starts, ref) == 0
  {
    var a := Full(65536, 65537);
    FullTotal(65536, 65537);
    FullTotal(65536, 65536);
    assert a.blocks[..65536] == Full(65536, 65536).blocks;
  }

  /** Strings that do not overlap in the arena do not overlap after compaction. */
  lemma CompactedDisjoint(a: Image, p: StringRef, q: StringRef)
    requires Valid(a) && ValidRef(a, p) && ValidRef(a, q)
    requires p.size > 0 && q.size > 0 && Disjoint(p, q)
    ensures var i := Start(a.blocks, p.block) + p.offset;
            var j := Start(a.blocks, q.block) + q.offset;
            i + p.size <= j || j + q.size <= i
  {
    if p.block < q.block {
      StartGrows(a.blocks, p.block, q.block);
    } else if q.block < p.block {
      StartGrows(a.blocks, q.block, p.block);
    }
  }
}
