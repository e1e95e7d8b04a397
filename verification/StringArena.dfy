/** `StringArena` (server/src/string_arena.cpp): blocks of bytes that strings are bumped into. */
module StringArenas {
  import opened Wrappers
  import opened ArenaImage
  import opened Compaction

  class Block {
    const data: array<char>
    var back: nat
    var dead: nat

    constructor (capacity: nat)
      ensures fresh(data)
      ensures data[..] == Zeros(capacity) && back == 0 && dead == 0
    {
      data := new char[capacity](_ => '\0');
      back, dead := 0, 0;
    }

    ghost function Picture(): BlockImage
      reads this, data
    {
      BlockImage(data[..], back, dead)
    }

    /** std::memcpy into the block; std::memset when `s` is all zeros. */
    method Copy(at: nat, s: string)
      requires at + |s| <= data.Length
      modifies data
      ensures data[..] == Splice(old(data[..]), at, s)
    {
      forall k | 0 <= k < |s| {
        data[at + k] := s[k];
      }
    }

    /** The bytes in use, copied to `dest` from `at` on. */
    method CopyOut(dest: array<char>, at: nat)
      requires back <= data.Length && at + back <= dest.Length && dest != data
      modifies dest
      ensures dest[..at + back] == old(dest[..at]) + data[..back]
    {
      forall k | 0 <= k < back {
        dest[at + k] := data[k];
      }
    }
  }

  class StringArena {
    const blockSize: nat
    var blocks: seq<Block>
    var dead: nat
    ghost var image: Image
    ghost var Repr: set<object>

    /** The arena owns its blocks, and no two of them share memory. */
    ghost predicate Owns()
      reads this
    {
      && this in Repr
      && (forall i :: 0 <= i < |blocks| ==> blocks[i] in Repr && blocks[i].data in Repr)
      && (forall i, j :: 0 <= i < j < |blocks| ==> blocks[i] != blocks[j] && blocks[i].data != blocks[j].data)
    }

    ghost predicate Shows(pictures: seq<BlockImage>)
      requires Owns()
      reads this, Repr
    {
      && |pictures| == |blocks|
      && forall i :: 0 <= i < |blocks| ==> pictures[i] == blocks[i].Picture()
    }

    ghost predicate Valid()
      reads this, Repr
      ensures Valid() ==> this in Repr
    {
      && Owns()
      && Shows(image.blocks)
      && image.blockSize == blockSize
      && image.dead == dead
      && ArenaImage.Valid(image)
    }

    constructor (blockSize: nat)
      requires 0 < blockSize < WORD32
      ensures Valid() && fresh(Repr)
      ensures image == Empty(blockSize)
    {
      this.blockSize := blockSize;
      var first := new Block(blockSize);
      blocks := [first];
      dead := 0;
      image := Empty(blockSize);
      Repr := {this, first, first.data};
      new;
      EmptyValid(blockSize);
    }

    method AllocateBlock(capacity: nat)
      requires Owns() && Shows(image.blocks)
      modifies this
      ensures Owns() && fresh(Repr - old(Repr))
      ensures dead == old(dead)
      ensures image == old(image).(blocks := old(image).blocks + [Fresh(capacity)])
      ensures Shows(image.blocks)
    {
      var b := new Block(capacity);
      blocks := blocks + [b];
      Repr := Repr + {b, b.data};
      image := image.(blocks := image.blocks + [Fresh(capacity)]);
    }

    /** The bytes of block `n` from `at` on become `s`, and its counters move by the given amounts. */
    method WriteBlock(n: nat, at: nat, s: string, moreBack: nat, moreDead: nat)
      requires Owns() && Shows(image.blocks)
      requires n < |blocks| && at + |s| <= blocks[n].data.Length
      modifies Repr
      ensures Owns() && Repr == old(Repr) && blocks == old(blocks) && dead == old(dead)
      ensures var b := old(image).blocks[n];
              image == old(image).(blocks := old(image).blocks[n :=
                BlockImage(Splice(b.bytes, at, s), b.back + moreBack, b.dead + moreDead)])
      ensures Shows(image.blocks)
    {
      var block := blocks[n];
      assert image.blocks[n] == block.Picture();
      block.Copy(at, s);
      block.back := block.back + moreBack;
      block.dead := block.dead + moreDead;
      image := image.(blocks := image.blocks[n := block.Picture()]);
    }

    method Store(s: string) returns (r: StringRef)
      requires Valid() && |s| < WORD32
      modifies Repr
      ensures Valid() && fresh(Repr - old(Repr))
      ensures (image, r) == Stored(old(image), s)
    {
      hide WellFormed, Total;
      if s == "" {
        return NULL_REF;
      }
      ghost var before := image;
      AppendedWellFormed(image, s);
      AppendedTotals(image, s);
      BacksFit(image);
      if |blocks| == 0 || blocks[|blocks| - 1].data.Length - blocks[|blocks| - 1].back < |s| {
        AllocateBlock(Max(blockSize, |s|));
      }
      var n := |blocks| - 1;
      var offset := blocks[n].back;
      assert image == WithRoom(before, |s|);
      WriteBlock(n, offset, s, |s|, 0);
      assert image == Stored(before, s).0;
      return StringRef(n, Cast32(offset), Cast32(|s|));
    }

    /** `None` is the undefined behaviour of a clear that runs past the block;
        the bytes of the arena are then anything. */
    method Overwrite(rule: TailRule, ref: StringRef, s: string) returns (r: Option<StringRef>)
      requires Valid()
      requires |s| <= ref.size
      requires ref.offset + ref.size < WORD32
      modifies Repr
      ensures Repr == old(Repr)
      ensures r.Some? <==> Overwritten(rule, old(image), ref, s).Some?
      ensures r.Some? ==> Valid() && Some((image, r.value)) == Overwritten(rule, old(image), ref, s)
    {
      hide WellFormed, Total, Splice, SizeDifference;
      if ref.size == 0 {
        return Some(NULL_REF);
      }
      if ref.block >= |blocks| {
        return Some(NULL_REF);
      }
      assert image.blocks[ref.block] == blocks[ref.block].Picture();
      if Cast32(ref.offset + ref.size) > blocks[ref.block].back {
        return Some(NULL_REF);
      }
      BlockParts(image, ref.block);
      ghost var before := image;
      var difference := TailLength(rule, |s|, ref.size);
      WriteBlock(ref.block, ref.offset, s, 0, 0);
      if ref.offset + |s| + difference > blocks[ref.block].data.Length {
        return None;
      }
      WriteBlock(ref.block, ref.offset + |s|, Zeros(difference), 0, 0);
      TwoWrites(rule, before, ref, s);
      OverwrittenValid(rule, before, ref, s);
      r := Some(StringRef(ref.block, ref.offset, Cast32(|s|)));
    }

    method Remove(ref: StringRef) returns (ok: bool)
      requires Valid()
      modifies Repr
      ensures Valid() && Repr == old(Repr)
      ensures (image, ok) == Removed(old(image), ref)
    {
      hide WellFormed, Total;
      if ref.block >= |blocks| {
        return false;
      }
      assert image.blocks[ref.block] == blocks[ref.block].Picture();
      var back := blocks[ref.block].back;
      if ref.offset >= back || ref.size > back - ref.offset {
        return false;
      }
      BlockParts(image, ref.block);
      ghost var before := image;
      WriteBlock(ref.block, ref.offset, Zeros(ref.size), 0, ref.size);
      dead := dead + ref.size;
      image := image.(dead := image.dead + ref.size);
      assert image == Removed(before, ref).0;
      RemovedValid(before, ref);
      return true;
    }

    method View(ref: StringRef) returns (s: string)
      requires Valid()
      requires ref.offset + ref.size < WORD32
      ensures s == ArenaImage.View(image, ref)
    {
      if ref.size == 0 {
        return "";
      }
      if ref.block >= |blocks| {
        return "";
      }
      var block := blocks[ref.block];
      assert image.blocks[ref.block] == block.Picture();
      if Cast32(ref.offset + ref.size) > block.back {
        return "";
      }
      BlockParts(image, ref.block);
      return block.data[ref.offset..ref.offset + ref.size];
    }

    method ShouldReallocate() returns (yes: bool)
      requires Valid()
      ensures yes <==> Total(image.blocks).capacity <= 2 * image.dead
    {
      var capacity := 0;
      for i := 0 to |blocks|
        invariant capacity == Total(image.blocks[..i]).capacity
      {
        assert image.blocks[i] == blocks[i].Picture();
        assert image.blocks[..i + 1][..i] == image.blocks[..i];
        capacity := capacity + blocks[i].data.Length;
      }
      assert image.blocks[..|blocks|] == image.blocks;
      return capacity <= dead * 2;
    }

    method UsedSize() returns (used: nat)
      requires Valid()
      ensures used == Total(image.blocks).used
    {
      used := 0;
      for i := 0 to |blocks|
        invariant used == Total(image.blocks[..i]).used
      {
        assert image.blocks[i] == blocks[i].Picture();
        assert image.blocks[..i + 1][..i] == image.blocks[..i];
        used := used + blocks[i].back;
      }
      assert image.blocks[..|blocks|] == image.blocks;
    }

    /** `dest` receives every block's bytes; `starts` is the table behind `offset_of`. */
    method CompactInto(dest: array<char>) returns (starts: seq<nat>)
      requires Valid() && dest !in Repr
      requires dest.Length == Total(image.blocks).used
      modifies dest
      ensures forall b :: b in image.blocks ==> b.back <= |b.bytes|
      ensures dest[..] == Compacted(image.blocks)
      ensures Layout(image.blocks, starts)
    {
      hide WellFormed, Start, Compacted;
      ghost var pictures := image.blocks;
      BacksFit(image);
      CompactedStart(pictures);
      starts := [];
      var processed := 0;
      for i := 0 to |blocks|
        invariant |starts| == i
        invariant processed == Start(pictures, i) <= dest.Length
        invariant dest[..processed] == Compacted(pictures[..i])
        invariant forall j :: 0 <= j < i ==> starts[j] == Cast32(Start(pictures, j))
      {
        assert pictures[i] == blocks[i].Picture();
        CompactedStep(pictures, i);
        blocks[i].CopyOut(dest, processed);
        starts := starts + [Cast32(processed)];
        processed := processed + blocks[i].back;
      }
      assert pictures[..|blocks|] == pictures;
      assert dest[..processed] == dest[..];
    }
  }
}
