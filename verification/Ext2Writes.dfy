// How far writes with the shipped divisors can be trusted: for which ranges they place the same bytes in the same
// places as the repaired ones, on every disk where the file's blocks are its own.

module Ext2Writes {
  import opened Bytes
  import opened Revisions
  import opened Ext2Layout
  import opened Ext2Blocks
  import opened Ext2Traverse
  import opened Ext2Files

  /** On this disk, the two sets of divisors place the same number of bytes, and the same bytes in the same places. */
  ghost predicate SameWrite(a: FileMap, r: FileMap, image: seq<byte>, offset: nat, size: nat) {
    && (forall n: nat ::
          IsExtent(a, image, offset, size, n) <==> IsExtent(r, image, offset, size, n))
    && (forall data, image' | IsExtent(r, image, offset, size, |data|) ::
          Overwritten(a, image, image', offset, data) <==>
          Overwritten(r, image, image', offset, data))
  }

  /** In the ext2 layout, no block of the file is a pointer table of the file or in the file twice. */
  ghost predicate OwnsFile(f: FileMap, image: seq<byte>) {
    && (forall i: nat | i < Capacity(f.bs / 4) :: SoundAt(f, image, i))
    && (forall i: nat, j: nat | i < Capacity(f.bs / 4) && j < Capacity(f.bs / 4) && BlockAt(f, image, i) != 0 ::
          && BlockAt(f, image, i) !in TablesAt(f, image, j)
          && (i != j ==> BlockAt(f, image, i) != BlockAt(f, image, j)))
  }

  lemma OwnerOfRange(f: FileMap, image: seq<byte>, offset: nat, size: nat)
    requires OwnsFile(f, image) && offset + size <= Capacity(f.bs / 4) * f.bs
    ensures Walkable(f, image, offset, size) && OwnsBlocks(f, image, offset, size)
  {
    forall idx: nat | Covered(f.bs, offset, size, idx)
      ensures idx < Capacity(f.bs / 4)
    {
      if idx >= Capacity(f.bs / 4) {
        MultipleGrows(Capacity(f.bs / 4), idx, f.bs);
      }
    }
  }

  /** Whatever the divisors, the walk finds what the layout has for some block that an inode can map. */
  lemma LooksUpSome(f: FileMap, image: seq<byte>, i: nat) returns (j: nat)
    requires ValidBlockSize(f.bs)
    ensures j < Capacity(f.bs / 4)
    ensures SoundAt(f, image, i) == SoundAt(f.(rev := Repaired), image, j)
    ensures BlockAt(f, image, i) == BlockAt(f.(rev := Repaired), image, j)
    ensures TablesAt(f, image, i) == TablesAt(f.(rev := Repaired), image, j)
  {
    SplitIsValid(f.rev, f.bs, i);
    j := Join(f.bs / 4, Split(f.rev, f.bs, i));
    JoinSplits(f.bs / 4, Split(f.rev, f.bs, i));
    RepairedSplitIsLayout(f.bs, j);
  }

  /** So on a disk where the file's blocks are its own, reads and writes of any range, by either set of divisors, have
      what they need, and the contracts of both apply. */
  lemma OwnerWalksApart(f: FileMap, image: seq<byte>, offset: nat, size: nat)
    requires ValidBlockSize(f.bs) && OwnsFile(f.(rev := Repaired), image)
    ensures Walkable(f, image, offset, size) && DataApart(f, image, offset, size)
  {
    hide SoundAt, BlockAt, TablesAt, Reached, Capacity;
    forall i: nat
      ensures SoundAt(f, image, i)
    {
      var i' := LooksUpSome(f, image, i);
    }
    forall i: nat, j: nat | BlockAt(f, image, i) != 0
      ensures BlockAt(f, image, i) !in TablesAt(f, image, j)
    {
      var i' := LooksUpSome(f, image, i);
      var j' := LooksUpSome(f, image, j);
    }
  }

  // ---------------------------------------------------------------- below the limit

  /** What is written depends only on where the bytes of the range lie. */
  lemma SamePlaces(f: FileMap, g: FileMap, image: seq<byte>, image': seq<byte>, offset: nat, data: seq<byte>)
    requires Overwritten(f, image, image', offset, data)
    requires forall p: nat | offset <= p < offset + |data| ::
               Addr(g, image, p) == Addr(f, image, p)
    ensures Overwritten(g, image, image', offset, data)
  {
    forall p: nat | offset <= p < offset + |data|
      ensures Stands(g, image, image', offset, data, p)
    {
      assert Stands(f, image, image', offset, data, p);
      if TakenLater(f, image, p, offset + |data|) {
        var q: nat :| p < q < offset + |data| && Addr(f, image, q) == Addr(f, image, p);
        assert Addr(g, image, q) == Addr(g, image, p);
      }
    }
    forall a: nat | Holds(f, image, offset, |data|, a)
      ensures Holds(g, image, offset, |data|, a)
    {
      var p: nat :| offset <= p < offset + |data| && Addr(f, image, p) == a;
      assert Addr(g, image, p) == a;
    }
  }

  lemma LowWritesAgree(image: seq<byte>, bs: nat, node: Inode, offset: nat, size: nat)
    requires ValidBlockSize(bs) && bs >= 4 && size > 0 && BlockIndex(bs, offset + size - 1) < DIRECT_COUNT + bs / 4
    ensures SameWrite(FileMapOf(AsShipped, bs, node), FileMapOf(Repaired, bs, node), image, offset, size)
  {
    var a, r := FileMapOf(AsShipped, bs, node), FileMapOf(Repaired, bs, node);
    LowReadsAgree(image, bs, node, offset, size);
    forall p: nat | offset <= p < offset + size
      ensures Addr(a, image, p) == Addr(r, image, p)
    {
      LowPlacesAgree(image, bs, node, offset + size - 1, p);
    }
    hide BlockIndex, Addr, Overwritten, Mapped;
    forall data, image' | IsExtent(r, image, offset, size, |data|)
      ensures Overwritten(a, image, image', offset, data) <==> Overwritten(r, image, image', offset, data)
    {
      if Overwritten(a, image, image', offset, data) {
        SamePlaces(a, r, image, image', offset, data);
      }
      if Overwritten(r, image, image', offset, data) {
        SamePlaces(r, a, image, image', offset, data);
      }
    }
  }

  lemma LowPlacesAgree(image: seq<byte>, bs: nat, node: Inode, last: nat, p: nat)
    requires ValidBlockSize(bs) && bs >= 4 && p <= last && BlockIndex(bs, last) < DIRECT_COUNT + bs / 4
    ensures Addr(FileMapOf(AsShipped, bs, node), image, p) == Addr(FileMapOf(Repaired, bs, node), image, p)
  {
    DivMonotone(p, last, bs);
    if BlockIndex(bs, p) >= DIRECT_COUNT {
      DivisorsAgreeBelow(bs, BlockIndex(bs, p));
    }
  }

  // ---------------------------------------------------------------- beyond it

  /** Some image is the result of a write of mapped bytes. */
  lemma {:induction false} WriteHasResult(f: FileMap, image: seq<byte>, offset: nat, data: seq<byte>)
    returns (image': seq<byte>)
    requires forall p: nat | offset <= p < offset + |data| :: Mapped(f, image, p)
    ensures Overwritten(f, image, image', offset, data)
    decreases |data|
  {
    if data == [] {
      image' := image;
    } else {
      var k := |data| - 1;
      var before := WriteHasResult(f, image, offset, data[..k]);
      assert Mapped(f, image, offset + k);
      AddrInImage(f, image, offset + k);
      assert data[..k] + [data[k]] == data;
      hide Addr, Overwritten, Mapped;
      ChunkExtends(f, image, before, offset, data[..k], [data[k]]);
      image' := Splice(before, Addr(f, image, offset + k), [data[k]]);
    }
  }

  /** When the last byte written goes to a wrong block, some write comes out different. */
  lemma StrayWriteDiffers(a: FileMap, r: FileMap, image: seq<byte>, offset: nat, size: nat, n: nat)
    requires a.bs == r.bs && 0 < n <= size && OwnsBlocks(r, image, offset, size)
    requires IsExtent(a, image, offset, size, n)
    requires IsExtent(r, image, offset, size, n)
    requires var idx := BlockIndex(r.bs, offset + n - 1);
             BlockAt(a, image, idx) != BlockAt(r, image, idx)
    ensures !SameWrite(a, r, image, offset, size)
  {
    hide *;
    var p := offset + n - 1;
    PlacesDiffer(a, r, image, p);
    ExtentMapped(a, image, offset, size, n);
    ExtentMapped(r, image, offset, size, n);
    var x := Addr(a, image, p);
    var data := TellTaleData(n, image[x]);
    var image' := WriteHasResult(r, image, offset, data);
    StrayedByte(r, image, image', offset, size, data, x);
    LastByteStands(a, image, image', offset, data);
    if SameWrite(a, r, image, offset, size) {
      SameWriteAgrees(a, r, image, image', offset, size, data);
    }
  }

  /** Bytes of one value, but for the last. */
  function TellTaleData(n: nat, value: byte): (data: seq<byte>)
    requires n > 0
    ensures |data| == n && data[n - 1] != value && forall i | 0 <= i < n - 1 :: data[i] == value
  {
    seq<byte>(n, i => if i < n - 1 then value else if value == 0 then 1 else 0)
  }

  lemma ExtentMapped(f: FileMap, image: seq<byte>, offset: nat, size: nat, n: nat)
    requires IsExtent(f, image, offset, size, n)
    ensures forall p: nat | offset <= p < offset + n :: Mapped(f, image, p)
  {}

  lemma SameWriteAgrees(a: FileMap, r: FileMap, image: seq<byte>, image': seq<byte>, offset: nat, size: nat,
                        data: seq<byte>)
    requires SameWrite(a, r, image, offset, size)
    requires IsExtent(r, image, offset, size, |data|)
    ensures Overwritten(a, image, image', offset, data) <==> Overwritten(r, image, image', offset, data)
  {
    hide IsExtent, Overwritten;
  }

  lemma PlacesDiffer(a: FileMap, r: FileMap, image: seq<byte>, p: nat)
    requires a.bs == r.bs
    requires BlockAt(a, image, BlockIndex(r.bs, p)) != BlockAt(r, image, BlockIndex(r.bs, p))
    ensures Addr(a, image, p) != Addr(r, image, p)
    ensures Mapped(a, image, p) ==> Addr(a, image, p) < |image|
  {
    AddrParts(a, image, p);
    AddrParts(r, image, p);
    if Mapped(a, image, p) {
      AddrInImage(a, image, p);
    }
  }

  /** A place that does not belong to the last byte keeps its value when all other bytes written have that value. */
  lemma StrayedByte(f: FileMap, image: seq<byte>, image': seq<byte>, offset: nat, size: nat, data: seq<byte>, x: nat)
    requires 0 < |data| <= size && OwnsBlocks(f, image, offset, size)
    requires forall p: nat | offset <= p < offset + |data| :: Mapped(f, image, p)
    requires Overwritten(f, image, image', offset, data)
    requires x < |image| && Addr(f, image, offset + |data| - 1) != x
    requires forall i | 0 <= i < |data| - 1 :: data[i] == image[x]
    ensures |image'| == |image| && image'[x] == image[x]
  {
    hide *;
    if Holds(f, image, offset, |data|, x) {
      var q := HeldBy(f, image, offset, |data|, x);
      NeverTakenLater(f, image, offset, size, q, offset + |data|);
      WrittenAt(f, image, image', offset, data, q);
    } else {
      UnwrittenAt(f, image, image', offset, data, x);
    }
  }

  lemma HeldBy(f: FileMap, image: seq<byte>, offset: nat, n: nat, x: nat) returns (q: nat)
    requires Holds(f, image, offset, n, x)
    ensures offset <= q < offset + n && Addr(f, image, q) == x
  {
    hide Addr;
    q :| offset <= q < offset + n && Addr(f, image, q) == x;
  }

  lemma WrittenAt(f: FileMap, image: seq<byte>, image': seq<byte>, offset: nat, data: seq<byte>, q: nat)
    requires Overwritten(f, image, image', offset, data)
    requires offset <= q < offset + |data| && !TakenLater(f, image, q, offset + |data|)
    ensures |image'| == |image| && Addr(f, image, q) < |image|
    ensures image'[Addr(f, image, q)] == data[q - offset]
  {
    hide Addr, TakenLater, Holds;
    assert Stands(f, image, image', offset, data, q);
  }

  lemma UnwrittenAt(f: FileMap, image: seq<byte>, image': seq<byte>, offset: nat, data: seq<byte>, x: nat)
    requires Overwritten(f, image, image', offset, data)
    requires x < |image| && !Holds(f, image, offset, |data|, x)
    ensures |image'| == |image| && image'[x] == image[x]
  {
    hide Addr, TakenLater, Holds;
  }

  lemma LastByteStands(f: FileMap, image: seq<byte>, image': seq<byte>, offset: nat, data: seq<byte>)
    requires data != [] && Addr(f, image, offset + |data| - 1) < |image| == |image'|
    ensures Overwritten(f, image, image', offset, data) ==>
              image'[Addr(f, image, offset + |data| - 1)] == data[|data| - 1]
  {
    assert !TakenLater(f, image, offset + |data| - 1, offset + |data|);
    hide *;
    if Overwritten(f, image, image', offset, data) {
      WrittenAt(f, image, image', offset, data, offset + |data| - 1);
    }
  }

  // ---------------------------------------------------------------- a disk of the file's own blocks

  // Blocks 1 to 3 are the tables on the way to one block past the singly indirect region, block 4 is the singly
  // indirect table, and from block 5 on lie the first `12 + ptrs` blocks of the file and then that one block.
  const SINGLE_TABLE: nat := 4
  const FIRST_DATA: nat := 5

  function FarBlock(ptrs: nat): nat {
    FIRST_DATA + DIRECT_COUNT + ptrs
  }

  /** Entry `k` of block `block`; `steps` are the entries on the way to the far block. */
  function OwnedEntry(ptrs: nat, steps: seq<nat>, block: nat, k: nat): (x: nat)
    requires |steps| <= 3 && ptrs + 18 <= TWO_TO_THE_32
    ensures x < TWO_TO_THE_32
  {
    if block == SINGLE_TABLE then (if k < ptrs then FIRST_DATA + DIRECT_COUNT + k else 0)
    else if 1 <= block <= |steps| && k == steps[block - 1] then (if block == |steps| then FarBlock(ptrs) else block + 1)
    else 0
  }

  function OwnedByte(ptrs: nat, steps: seq<nat>, block: nat, at: nat): byte
    requires |steps| <= 3 && ptrs + 18 <= TWO_TO_THE_32
  {
    U32(OwnedEntry(ptrs, steps, block, at / 4))[at % 4]
  }

  function OwnedImage(bs: nat, steps: seq<nat>): (image: seq<byte>)
    requires bs >= 4 && |steps| <= 3 && bs / 4 + 18 <= TWO_TO_THE_32
    ensures |image| == (FarBlock(bs / 4) + 1) * bs
  {
    ProductOfNats(FarBlock(bs / 4) + 1, bs);
    seq<byte>((FarBlock(bs / 4) + 1) * bs, i requires 0 <= i => OwnedByte(bs / 4, steps, BlockIndex(bs, i), i % bs))
  }

  function OwnedNode(right: Root): Inode {
    InodeFields(seq(12, i => FIRST_DATA + i), SINGLE_TABLE,
                if right.Double? then 1 else 0, if right.Triple? then 1 else 0)
  }

  lemma OwnedBlock(bs: nat, steps: seq<nat>, block: nat, at: nat)
    requires bs >= 4 && |steps| <= 3 && bs / 4 + 18 <= TWO_TO_THE_32 && block <= FarBlock(bs / 4)
    ensures InImage(OwnedImage(bs, steps), bs, block)
    ensures at < bs ==> BlockBytes(OwnedImage(bs, steps), bs, block)[at] == OwnedByte(bs / 4, steps, block, at)
  {
    assert BlockInside(bs, block) by { InsideOwned(bs, block); }
    hide OwnedByte;
    if at < bs {
      DivModIs(block * bs + at, bs, block, at);
      assert BlockIndex(bs, block * bs + at) == block;
      OwnedAtPosition(bs, steps, block * bs + at);
    }
  }

  predicate BlockInside(bs: nat, block: nat) {
    0 <= block * bs && block * bs + bs == (block + 1) * bs <= (FarBlock(bs / 4) + 1) * bs
  }

  lemma InsideOwned(bs: nat, block: nat)
    requires block <= FarBlock(bs / 4)
    ensures BlockInside(bs, block)
  {
    hide FarBlock;
    MultipleGrows(block + 1, FarBlock(bs / 4) + 1, bs);
    ProductOfNats(block, bs);
  }

  lemma OwnedAtPosition(bs: nat, steps: seq<nat>, p: nat)
    requires bs >= 4 && |steps| <= 3 && bs / 4 + 18 <= TWO_TO_THE_32 && p < (FarBlock(bs / 4) + 1) * bs
    ensures OwnedImage(bs, steps)[p] == OwnedByte(bs / 4, steps, BlockIndex(bs, p), p % bs)
  {
    hide OwnedByte, BlockIndex, FarBlock;
  }

  lemma OwnedTable(bs: nat, steps: seq<nat>, block: nat, k: nat)
    requires bs >= 4 && |steps| <= 3 && bs / 4 + 18 <= TWO_TO_THE_32 && block <= FarBlock(bs / 4) && 4 * k + 4 <= bs
    ensures InImage(OwnedImage(bs, steps), bs, block)
    ensures TableEntry(BlockBytes(OwnedImage(bs, steps), bs, block), k) == OwnedEntry(bs / 4, steps, block, k)
  {
    hide OwnedImage, OwnedEntry, BlockBytes, U32;
    forall j | 0 <= j < 4
      ensures BlockBytes(OwnedImage(bs, steps), bs, block)[4 * k + j] == U32(OwnedEntry(bs / 4, steps, block, k))[j]
    {
      OwnedBlock(bs, steps, block, 4 * k + j);
      DivModIs(4 * k + j, 4, k, j);
    }
    var table, word := BlockBytes(OwnedImage(bs, steps), bs, block), U32(OwnedEntry(bs / 4, steps, block, k));
    assert table[4 * k + 0] == word[0] && table[4 * k + 1] == word[1];
    assert table[4 * k + 2] == word[2] && table[4 * k + 3] == word[3];
  }

  /** Following table `j` of the way along `rest`. */
  lemma {:induction false} WayLeads(bs: nat, steps: seq<nat>, j: nat, rest: seq<nat>)
    requires bs >= 4 && 1 <= j <= |steps| <= 3 && bs / 4 + 18 <= TWO_TO_THE_32 && |rest| == |steps| - (j - 1)
    requires forall k | 0 <= k < |rest| :: 4 * rest[k] + 4 <= bs
    ensures Sound(OwnedImage(bs, steps), bs, j, rest)
    ensures Follow(OwnedImage(bs, steps), bs, j, rest) == if rest == steps[j - 1..] then FarBlock(bs / 4) else 0
    ensures Tables(OwnedImage(bs, steps), bs, j, rest) <= {1, 2, 3}
    decreases |rest|
  {
    var image := OwnedImage(bs, steps);
    OwnedTable(bs, steps, j, rest[0]);
    assert steps[j - 1..] == [steps[j - 1]] + steps[j..] && rest == [rest[0]] + rest[1..];
    if rest[0] == steps[j - 1] {
      if j == |steps| {
        OwnedBlock(bs, steps, FarBlock(bs / 4), 0);
      } else {
        WayLeads(bs, steps, j + 1, rest[1..]);
      }
    }
  }

  /** The block that a path leads to on this disk. */
  function OwnedTarget(ptrs: nat, right: Path, p: Path): nat
    requires ValidPath(ptrs, p)
  {
    match p.root
    case Direct(i) => FIRST_DATA + i
    case Single => FIRST_DATA + DIRECT_COUNT + p.steps[0]
    case _ => if p == right then FarBlock(ptrs) else 0
  }

  lemma OwnedPathLeads(bs: nat, right: Path, p: Path)
    requires bs >= 4 && bs / 4 + 18 <= TWO_TO_THE_32 && ValidPath(bs / 4, right) && ValidPath(bs / 4, p)
    requires right.root.Double? || right.root.Triple?
    ensures var image, ptr := OwnedImage(bs, right.steps), RootPointer(OwnedNode(right.root), p.root);
            && Sound(image, bs, ptr, p.steps)
            && Follow(image, bs, ptr, p.steps) == OwnedTarget(bs / 4, right, p)
            && Tables(image, bs, ptr, p.steps) <= {1, 2, 3, 4}
  {
    if p.root.Direct? {
      OwnedBlock(bs, right.steps, FIRST_DATA + p.root.i, 0);
    } else if p.root.Single? {
      OwnedSingle(bs, right, p);
    } else if p.root == right.root {
      OwnedFar(bs, right, p);
    }
  }

  lemma OwnedSingle(bs: nat, right: Path, p: Path)
    requires bs >= 4 && bs / 4 + 18 <= TWO_TO_THE_32 && |right.steps| <= 3 && ValidPath(bs / 4, p) && p.root.Single?
    ensures var image := OwnedImage(bs, right.steps);
            && Sound(image, bs, SINGLE_TABLE, p.steps)
            && Follow(image, bs, SINGLE_TABLE, p.steps) == OwnedTarget(bs / 4, right, p)
            && Tables(image, bs, SINGLE_TABLE, p.steps) <= {1, 2, 3, 4}
  {
    hide OwnedImage, BlockBytes, TableEntry, InImage;
    OwnedTable(bs, right.steps, SINGLE_TABLE, p.steps[0]);
    OwnedBlock(bs, right.steps, FIRST_DATA + DIRECT_COUNT + p.steps[0], 0);
    assert p.steps[1..] == [];
  }

  lemma OwnedFar(bs: nat, right: Path, p: Path)
    requires bs >= 4 && bs / 4 + 18 <= TWO_TO_THE_32 && ValidPath(bs / 4, right) && ValidPath(bs / 4, p)
    requires p.root == right.root && (right.root.Double? || right.root.Triple?)
    ensures var image := OwnedImage(bs, right.steps);
            && Sound(image, bs, 1, p.steps)
            && Follow(image, bs, 1, p.steps) == OwnedTarget(bs / 4, right, p)
            && Tables(image, bs, 1, p.steps) <= {1, 2, 3}
  {
    hide OwnedImage, BlockBytes, TableEntry, InImage, Sound, Follow, Tables;
    WayLeads(bs, right.steps, 1, p.steps);
    assert right.steps[0..] == right.steps;
  }

  /** What both revisions find on this disk. */
  lemma OwnedLookup(rev: Revision, bs: nat, right: Path, i: nat)
    requires ValidBlockSize(bs) && bs >= 4 && bs / 4 + 18 <= TWO_TO_THE_32
    requires ValidPath(bs / 4, right) && (right.root.Double? || right.root.Triple?)
    ensures ValidPath(bs / 4, Split(rev, bs, i)) && |right.steps| <= 3
    ensures var image, node := OwnedImage(bs, right.steps), OwnedNode(right.root);
            && SoundAt(FileMapOf(rev, bs, node), image, i)
            && BlockAt(FileMapOf(rev, bs, node), image, i) == OwnedTarget(bs / 4, right, Split(rev, bs, i))
            && TablesAt(FileMapOf(rev, bs, node), image, i) <= {1, 2, 3, 4}
  {
    SplitIsValid(rev, bs, i);
    hide Split, OwnedImage, OwnedNode, OwnedTarget, RootPointer;
    OwnedPathLeads(bs, right, Split(rev, bs, i));
  }

  /** A disk on which the first `12 + ptrs` blocks of a file and block `idx` are mapped, all of them its own. */
  lemma OwnedDisk(bs: nat, idx: nat) returns (image: seq<byte>, node: Inode)
    requires ValidBlockSize(bs) && bs >= 4 && bs / 4 + 18 <= TWO_TO_THE_32
    requires DIRECT_COUNT + bs / 4 <= idx < Capacity(bs / 4)
    ensures OwnsFile(FileMapOf(Repaired, bs, node), image)
    ensures forall i: nat | i < Capacity(bs / 4) ::
              BlockAt(FileMapOf(Repaired, bs, node), image, i) != 0 <==> i < DIRECT_COUNT + bs / 4 || i == idx
    ensures BlockAt(FileMapOf(AsShipped, bs, node), image, idx) != BlockAt(FileMapOf(Repaired, bs, node), image, idx)
  {
    var right := Split(Repaired, bs, idx);
    ShippedSplitStrays(bs, idx);
    SplitIsValid(Repaired, bs, idx);
    OwnedLookup(Repaired, bs, right, idx);
    OwnedLookup(AsShipped, bs, right, idx);
    StrayTarget(bs, right, Split(AsShipped, bs, idx));
    image, node := OwnedImage(bs, right.steps), OwnedNode(right.root);
    hide Split, OwnedTarget, BlockAt, SoundAt, TablesAt, Capacity, ValidPath, OwnedImage, OwnedNode;
    forall i: nat | i < Capacity(bs / 4)
      ensures OwnedAt(FileMapOf(Repaired, bs, node), image, idx, i)
    {
      OwnedLookup(Repaired, bs, right, i);
      OwnedTargetOf(bs, idx, i);
    }
    OwnedOnce(FileMapOf(Repaired, bs, node), image, idx);
  }

  lemma StrayTarget(bs: nat, right: Path, wrong: Path)
    requires bs >= 4 && ValidPath(bs / 4, right) && ValidPath(bs / 4, wrong) && right != wrong
    requires right.root.Double? || right.root.Triple?
    ensures OwnedTarget(bs / 4, right, wrong) != OwnedTarget(bs / 4, right, right)
  {}

  ghost predicate OwnedAt(f: FileMap, image: seq<byte>, idx: nat, i: nat) {
    && SoundAt(f, image, i)
    && TablesAt(f, image, i) <= {1, 2, 3, 4}
    && BlockAt(f, image, i)
       == if i < DIRECT_COUNT + f.bs / 4 then FIRST_DATA + i else if i == idx then FarBlock(f.bs / 4) else 0
  }

  lemma OwnedOnce(f: FileMap, image: seq<byte>, idx: nat)
    requires forall i: nat | i < Capacity(f.bs / 4) :: OwnedAt(f, image, idx, i)
    ensures OwnsFile(f, image)
    ensures forall i: nat | i < Capacity(f.bs / 4) ::
              BlockAt(f, image, i) != 0 <==> i < DIRECT_COUNT + f.bs / 4 || i == idx
  {
    hide BlockAt, SoundAt, TablesAt, Capacity;
    forall i: nat, j: nat | i < Capacity(f.bs / 4) && j < Capacity(f.bs / 4) && BlockAt(f, image, i) != 0
      ensures BlockAt(f, image, i) !in TablesAt(f, image, j)
      ensures i != j ==> BlockAt(f, image, i) != BlockAt(f, image, j)
    {
      assert OwnedAt(f, image, idx, i) && OwnedAt(f, image, idx, j);
    }
    forall i: nat | i < Capacity(f.bs / 4)
      ensures SoundAt(f, image, i)
      ensures BlockAt(f, image, i) != 0 <==> i < DIRECT_COUNT + f.bs / 4 || i == idx
    {
      assert OwnedAt(f, image, idx, i);
    }
  }

  lemma OwnedTargetOf(bs: nat, idx: nat, i: nat)
    requires ValidBlockSize(bs) && bs >= 4
    requires DIRECT_COUNT + bs / 4 <= idx < Capacity(bs / 4) && i < Capacity(bs / 4)
    ensures ValidPath(bs / 4, Split(Repaired, bs, i))
    ensures OwnedTarget(bs / 4, Split(Repaired, bs, idx), Split(Repaired, bs, i))
         == if i < DIRECT_COUNT + bs / 4 then FIRST_DATA + i else if i == idx then FarBlock(bs / 4) else 0
  {
    SplitIsValid(Repaired, bs, i);
    RepairedSplitIsLayout(bs, i);
    RepairedSplitIsLayout(bs, idx);
    LayoutPathJoins(bs / 4, i);
    LayoutPathJoins(bs / 4, idx);
    hide Split;
    SpansAre(bs / 4);
    if DIRECT_COUNT <= i < DIRECT_COUNT + bs / 4 {
      DigitsOfOne(bs / 4, i - DIRECT_COUNT);
    }
  }

  /** The shipped divisors write a range right on every disk where the file's blocks are its own exactly when its last
      block is below 12 + `block_size / 4`. */
  lemma ShippedWriteIsRightIff(bs: nat, offset: nat, size: nat)
    requires ValidBlockSize(bs) && bs >= 4 && bs / 4 + 18 <= TWO_TO_THE_32
    requires size > 0 && offset + size <= Capacity(bs / 4) * bs
    ensures (forall image, node | OwnsFile(FileMapOf(Repaired, bs, node), image) ::
               SameWrite(FileMapOf(AsShipped, bs, node), FileMapOf(Repaired, bs, node), image, offset, size))
       <==> BlockIndex(bs, offset + size - 1) < DIRECT_COUNT + bs / 4
  {
    var first, last := BlockIndex(bs, offset), BlockIndex(bs, offset + size - 1);
    if last < DIRECT_COUNT + bs / 4 {
      forall image, node
        ensures SameWrite(FileMapOf(AsShipped, bs, node), FileMapOf(Repaired, bs, node), image, offset, size)
      {
        LowWritesAgree(image, bs, node, offset, size);
      }
    } else {
      DivBelow(offset + size - 1, bs, Capacity(bs / 4));
      DivMonotone(offset, offset + size - 1, bs);
      var idx := if first > DIRECT_COUNT + bs / 4 then first else DIRECT_COUNT + bs / 4;
      var image, node := OwnedDisk(bs, idx);
      HighWriteDiffers(FileMapOf(AsShipped, bs, node), FileMapOf(Repaired, bs, node), image, offset, size, idx);
      assert !SameWrite(FileMapOf(AsShipped, bs, node), FileMapOf(Repaired, bs, node), image, offset, size);
    }
  }

  /** The walk over such a disk goes up to the end of block `idx`. */
  lemma HighWriteDiffers(a: FileMap, r: FileMap, image: seq<byte>, offset: nat, size: nat, idx: nat)
    requires a.bs == r.bs
    requires size > 0 && OwnsFile(r, image) && offset + size <= Capacity(r.bs / 4) * r.bs
    requires BlockIndex(r.bs, offset) <= idx <= BlockIndex(r.bs, offset + size - 1) && DIRECT_COUNT + r.bs / 4 <= idx
    requires BlockIndex(r.bs, offset) < idx ==> idx == DIRECT_COUNT + r.bs / 4
    requires forall i: nat | i < Capacity(r.bs / 4) ::
               BlockAt(r, image, i) != 0 <==> i < DIRECT_COUNT + r.bs / 4 || i == idx
    requires BlockAt(a, image, idx) != BlockAt(r, image, idx)
    ensures !SameWrite(a, r, image, offset, size)
  {
    var n := WalkEndsBehind(r, image, offset, size, idx);
    if IsExtent(a, image, offset, size, n) {
      OwnerOfRange(r, image, offset, size);
      StrayWriteDiffers(a, r, image, offset, size, n);
    }
  }

  lemma WalkEndsBehind(f: FileMap, image: seq<byte>, offset: nat, size: nat, idx: nat) returns (n: nat)
    requires size > 0 && offset + size <= Capacity(f.bs / 4) * f.bs
    requires BlockIndex(f.bs, offset) <= idx <= BlockIndex(f.bs, offset + size - 1) && DIRECT_COUNT + f.bs / 4 <= idx
    requires BlockIndex(f.bs, offset) < idx ==> idx == DIRECT_COUNT + f.bs / 4
    requires forall i: nat | i < Capacity(f.bs / 4) ::
               BlockAt(f, image, i) != 0 <==> i < DIRECT_COUNT + f.bs / 4 || i == idx
    ensures 0 < n <= size && IsExtent(f, image, offset, size, n)
    ensures BlockIndex(f.bs, offset + n - 1) == idx
  {
    n := EndOfBlock(f.bs, offset, size, idx);
    hide BlockAt, Capacity, BlockIndex;
    assert forall p: nat | offset <= p < offset + n :: Mapped(f, image, p);
  }

  /** How far the range goes inside block `idx`. */
  lemma EndOfBlock(bs: nat, offset: nat, size: nat, idx: nat) returns (n: nat)
    requires bs >= 4 && size > 0 && offset + size <= Capacity(bs / 4) * bs
    requires BlockIndex(bs, offset) <= idx <= BlockIndex(bs, offset + size - 1)
    ensures 0 < n <= size && BlockIndex(bs, offset + n - 1) == idx
    ensures forall p: nat | offset <= p < offset + n ::
              BlockIndex(bs, offset) <= BlockIndex(bs, p) <= idx && BlockIndex(bs, p) < Capacity(bs / 4)
    ensures n < size ==> idx + 1 == BlockIndex(bs, offset + n) < Capacity(bs / 4)
  {
    n := EndInside(bs, offset, size, idx);
    hide *;
    forall p: nat | offset <= p < offset + n
      ensures BlockIndex(bs, offset) <= BlockIndex(bs, p) <= idx && BlockIndex(bs, p) < Capacity(bs / 4)
    {
      IndexInside(bs, offset, size, p, idx);
    }
    if n < size {
      IndexInside(bs, offset, size, offset + n, idx);
    }
  }

  lemma EndInside(bs: nat, offset: nat, size: nat, idx: nat) returns (n: nat)
    requires bs >= 4 && size > 0 && BlockIndex(bs, offset) <= idx <= BlockIndex(bs, offset + size - 1)
    ensures 0 < n <= size && offset + n <= (idx + 1) * bs && BlockIndex(bs, offset + n - 1) == idx
    ensures n < size ==> BlockIndex(bs, offset + n) == idx + 1
  {
    hide *;
    var start := idx * bs;
    assert (idx + 1) * bs == start + bs;
    IndexMeans(bs, offset, idx);
    IndexMeans(bs, offset + size - 1, idx);
    n := if start + bs - offset < size then start + bs - offset else size;
    IndexMeans(bs, offset + n - 1, idx);
    if n < size {
      IndexMeans(bs, offset + n, idx + 1);
      assert (idx + 1 + 1) * bs == start + bs + bs;
    }
  }

  lemma IndexMeans(bs: nat, p: nat, idx: nat)
    requires bs > 0
    ensures BlockIndex(bs, p) >= idx <==> idx * bs <= p
    ensures BlockIndex(bs, p) <= idx <==> p < idx * bs + bs
  {
    assert (idx + 1) * bs == idx * bs + bs;
    DivBelow(p, bs, idx);
    DivBelow(p, bs, idx + 1);
  }

  lemma IndexInside(bs: nat, offset: nat, size: nat, p: nat, idx: nat)
    requires bs >= 4 && offset <= p < offset + size <= Capacity(bs / 4) * bs
    ensures BlockIndex(bs, offset) <= BlockIndex(bs, p) < Capacity(bs / 4)
    ensures p < (idx + 1) * bs ==> BlockIndex(bs, p) <= idx
  {
    hide Capacity;
    DivMonotone(offset, p, bs);
    DivBelow(p, bs, idx + 1);
    DivBelow(p, bs, Capacity(bs / 4));
  }
}
