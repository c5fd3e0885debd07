// `ext2_read_inode_data` and `ext2_write_inode_data`, and what they mean for a file as a sequence of bytes.

module Ext2Files {
  import opened Bytes
  import opened Revisions
  import opened Ext2Layout
  import opened Ext2Blocks
  import opened Ext2Walk
  import opened Ext2Traverse
  import opened Ext2Places

  method ReadInodeData(f: FileMap, part: Partition, buffer: array<byte>, offset: nat, size: nat, junk: seq<byte>)
    returns (n: nat)
    requires ValidBlockSize(f.bs) && |junk| == f.bs <= |part.image| && size <= buffer.Length
    requires Walkable(f, part.image, offset, size)
    modifies part, buffer
    ensures Outcome(f, old(part.image), part.image, offset, size, ReadInto, old(buffer[..]), buffer[..], n, junk)
    ensures n <= size && DirectBytesAre(f.bs, f.node, old(part.image), offset, buffer[..n])
    ensures n < size ==> NoDirectByte(f.bs, f.node, offset + n)
  {
    if size == 0 {
      assert FileBytes(f, part.image, offset, 0) == [];
      return 0;
    }
    n := Traverse(f, part, offset, size, ReadInto, buffer, junk);
    ReadIsDirect(f, old(part.image), part.image, offset, size, old(buffer[..]), buffer[..], n, junk);
  }

  /** `writable` is attribute bit 1 of the inode's driver state. */
  method WriteInodeData(f: FileMap, part: Partition, writable: bool, buffer: array<byte>, offset: nat, size: nat,
                        junk: seq<byte>)
    returns (n: nat)
    requires ValidBlockSize(f.bs) && |junk| == f.bs <= |part.image| && size <= buffer.Length
    requires Walkable(f, part.image, offset, size)
    requires DataApart(f, part.image, offset, size)
    modifies part, buffer
    ensures buffer[..] == old(buffer[..])
    ensures !writable ==> n == 0 && part.image == old(part.image)
    ensures writable ==>
              Outcome(f, old(part.image), part.image, offset, size, WriteFrom, old(buffer[..]), buffer[..], n, junk)
    ensures n <= size
    ensures writable && n < size ==> NoDirectByte(f.bs, f.node, offset + n)
    ensures writable && OwnsBlocks(f, old(part.image), offset, size) ==>
              DirectBytesAre(f.bs, f.node, part.image, offset, buffer[..n])
  {
    if size == 0 || !writable {
      WalkStarts(f, part.image, offset, size, WriteFrom, buffer[..]);
      return 0;
    }
    n := Traverse(f, part, offset, size, WriteFrom, buffer, junk);
    WriteIsDirect(f, old(part.image), part.image, offset, size, buffer[..], n, junk);
  }

  // ---------------------------------------------------------------- the twelve direct blocks

  /** What a read brings from the direct blocks, and where it stops there, in terms of the inode's pointers. */
  lemma ReadIsDirect(f: FileMap, image: seq<byte>, image': seq<byte>, offset: nat, size: nat, before: seq<byte>,
                     buffer: seq<byte>, n: nat, junk: seq<byte>)
    requires |before| == |buffer| >= size && |junk| == f.bs <= |image|
    requires Walkable(f, image, offset, size)
    requires Outcome(f, image, image', offset, size, ReadInto, before, buffer, n, junk)
    ensures n <= size && DirectBytesAre(f.bs, f.node, image, offset, buffer[..n])
    ensures n < size ==> NoDirectByte(f.bs, f.node, offset + n)
  {
    assert buffer[..n] == FileBytes(f, image, offset, n);
    ExtentIsDirect(f, image, offset, size, n);
  }

  lemma ExtentIsDirect(f: FileMap, image: seq<byte>, offset: nat, size: nat, n: nat)
    requires Walkable(f, image, offset, size) && IsExtent(f, image, offset, size, n)
    ensures DirectBytesAre(f.bs, f.node, image, offset, FileBytes(f, image, offset, n))
    ensures n < size ==> NoDirectByte(f.bs, f.node, offset + n)
  {
    hide Mapped, Walkable, SoundAt, Reached, BlockIndex, DirectByteIs, NoDirectByte, ByteAt;
    forall i: nat | i < n
      ensures DirectByteIs(f.bs, f.node, image, offset + i, FileBytes(f, image, offset, n)[i])
    {
      MappedBefore(f, image, offset, size, n, i);
      ByteIsDirect(f, image, offset + i);
    }
    if n < size {
      MappedBefore(f, image, offset, size, n, n);
      ByteIsDirect(f, image, offset + n);
    }
  }

  lemma MappedBefore(f: FileMap, image: seq<byte>, offset: nat, size: nat, n: nat, i: nat)
    requires Walkable(f, image, offset, size) && IsExtent(f, image, offset, size, n) && i <= n && i < size
    ensures Mapped(f, image, offset + i) <==> i < n
    ensures SoundAt(f, image, BlockIndex(f.bs, offset + i))
  {
    PositionIsReached(f, image, offset, size, offset + i);
  }

  lemma ByteIsDirect(f: FileMap, image: seq<byte>, p: nat)
    requires SoundAt(f, image, BlockIndex(f.bs, p))
    ensures Mapped(f, image, p) ==> DirectByteIs(f.bs, f.node, image, p, ByteAt(f, image, p))
    ensures !Mapped(f, image, p) ==> NoDirectByte(f.bs, f.node, p)
  {
    if 0 <= p / f.bs < 12 {
      assert Split(f.rev, f.bs, BlockIndex(f.bs, p)) == Path(Direct(p / f.bs), []);
      DirectBytes(f, image, p);
    }
  }

  /** The same for a write, in the file's own blocks. */
  lemma WriteIsDirect(f: FileMap, image: seq<byte>, image': seq<byte>, offset: nat, size: nat, buffer: seq<byte>,
                      n: nat, junk: seq<byte>)
    requires |buffer| >= size && |junk| == f.bs <= |image|
    requires Walkable(f, image, offset, size)
    requires Outcome(f, image, image', offset, size, WriteFrom, buffer, buffer, n, junk)
    ensures n <= size
    ensures n < size ==> NoDirectByte(f.bs, f.node, offset + n)
    ensures OwnsBlocks(f, image, offset, size) ==> DirectBytesAre(f.bs, f.node, image', offset, buffer[..n])
  {
    ExtentIsDirect(f, image, offset, size, n);
    if OwnsBlocks(f, image, offset, size) && n > 0 {
      WriteThenRead(f, image, image', offset, size, buffer, n, junk);
      ExtentIsDirect(f, image', offset, n, n);
    }
  }

  // ---------------------------------------------------------------- the number of bytes moved

  lemma ExtentAt(f: FileMap, image: seq<byte>, offset: nat, size: nat, n: nat, k: nat)
    requires IsExtent(f, image, offset, size, n)
    ensures k < n ==> Mapped(f, image, offset + k)
    ensures n < size ==> !Mapped(f, image, offset + n)
  {}

  lemma ExtentIsUnique(f: FileMap, image: seq<byte>, offset: nat, size: nat, n: nat, n': nat)
    requires IsExtent(f, image, offset, size, n) && IsExtent(f, image, offset, size, n')
    ensures n == n'
  {
    ExtentAt(f, image, offset, size, n, n');
    ExtentAt(f, image, offset, size, n', n);
  }

  lemma OneLess(bs: nat, p: nat)
    requires bs > 0 && p > 0
    ensures p % bs > 0 ==> BlockIndex(bs, p - 1) == BlockIndex(bs, p)
  {
    if p % bs > 0 {
      DivModIs(p - 1, bs, BlockIndex(bs, p), p % bs - 1);
    }
  }

  /** A walk that stops early has moved exactly the bytes before the start of the first unmapped block. */
  lemma ShortWalkStopsAtBlock(f: FileMap, image: seq<byte>, offset: nat, size: nat, n: nat)
    requires IsExtent(f, image, offset, size, n) && 0 < n < size
    ensures (offset + n) % f.bs == 0
    ensures BlockAt(f, image, BlockIndex(f.bs, offset + n)) == 0
    ensures forall idx: nat | BlockIndex(f.bs, offset) <= idx < BlockIndex(f.bs, offset + n) ::
              BlockAt(f, image, idx) != 0
  {
    var p := offset + n;
    OneLess(f.bs, p);
    ExtentAt(f, image, offset, size, n, n - 1);
    forall idx: nat | BlockIndex(f.bs, offset) <= idx < BlockIndex(f.bs, p)
      ensures BlockAt(f, image, idx) != 0
    {
      DivBelow(p, f.bs, idx + 1);
      MultipleGrows(idx, idx + 1, f.bs);
      assert (idx + 1) * f.bs == idx * f.bs + f.bs;
      var q := CoveredHasPosition(f.bs, offset, n, idx);
      assert Mapped(f, image, q);
    }
  }

  lemma FileBytesSplit(f: FileMap, image: seq<byte>, offset: nat, n: nat, m: nat)
    ensures FileBytes(f, image, offset, n) + FileBytes(f, image, offset + n, m)
         == FileBytes(f, image, offset, n + m)
  {
    var all, rest := FileBytes(f, image, offset, n + m), FileBytes(f, image, offset + n, m);
    forall i | 0 <= i < m
      ensures all[n..][i] == rest[i]
    {
      assert offset + (n + i) == (offset + n) + i;
    }
    assert all[..n] == FileBytes(f, image, offset, n);
    assert all == all[..n] + all[n..];
  }

  /** Two reads, the second from where the first ended, bring what one larger read brings. */
  lemma ReadsConcatenate(f: FileMap, image: seq<byte>, offset: nat, a: nat, b: nat, n: nat, m: nat)
    requires IsExtent(f, image, offset, a, n)
    requires IsExtent(f, image, offset + n, b, m)
    ensures n == a ==> IsExtent(f, image, offset, a + b, n + m)
    ensures n < a && b > 0 ==> m == 0 && IsExtent(f, image, offset, a + b, n)
    ensures FileBytes(f, image, offset, n) + FileBytes(f, image, offset + n, m)
         == FileBytes(f, image, offset, n + m)
  {
    assert m > 0 ==> Mapped(f, image, offset + n);
    assert offset + (n + m) == (offset + n) + m;
    FileBytesSplit(f, image, offset, n, m);
  }

  // ---------------------------------------------------------------- what the exit path does to block 0

  /** The walk meets a zero root table pointer: some position of the range hangs off one, and all before it are
      mapped. */
  ghost predicate MeetsMissingRoot(f: FileMap, image: seq<byte>, offset: nat, size: nat) {
    exists p: nat :: offset <= p < offset + size && RootMissingAt(f, image, offset, p)
  }

  ghost predicate RootMissingAt(f: FileMap, image: seq<byte>, offset: nat, p: nat) {
    && BlockIndex(f.bs, p) >= DIRECT_COUNT
    && Start(f, BlockIndex(f.bs, p)) == 0
    && forall q: nat | offset <= q < p :: Mapped(f, image, q)
  }

  lemma RootMissingIffMet(f: FileMap, image: seq<byte>, offset: nat, size: nat, n: nat)
    requires IsExtent(f, image, offset, size, n)
    ensures RootMissing(f, offset, size, n) <==> MeetsMissingRoot(f, image, offset, size)
  {
    if RootMissing(f, offset, size, n) {
      assert RootMissingAt(f, image, offset, offset + n);
    }
    if MeetsMissingRoot(f, image, offset, size) {
      var p: nat :| offset <= p < offset + size && RootMissingAt(f, image, offset, p);
      assert !Mapped(f, image, p);
      assert p == offset + n;
    }
  }

  /** A read leaves the disk as it was exactly when it does not meet a zero root table pointer (or nothing tells the
      buffer written over block 0 from what block 0 held).  The repaired read always does.  Otherwise the buffer stands
      where block 0 was. */
  lemma ReadLeavesDiskIff(f: FileMap, image: seq<byte>, image': seq<byte>, offset: nat, size: nat, before: seq<byte>,
                          buffer: seq<byte>, n: nat, junk: seq<byte>)
    requires |before| == |buffer| >= size && |junk| == f.bs <= |image|
    requires Outcome(f, image, image', offset, size, ReadInto, before, buffer, n, junk)
    ensures image' == image <==>
              f.rev.Repaired? || !MeetsMissingRoot(f, image, offset, size) || image[..f.bs] == junk
    ensures image' != image ==> image' == junk + image[f.bs..]
  {
    hide MeetsMissingRoot;
    RootMissingIffMet(f, image, offset, size, n);
    SpiltIsSameIff(image, junk);
    assert Splice(image, 0, junk) == junk + image[f.bs..];
  }

  lemma SpiltIsSameIff(image: seq<byte>, junk: seq<byte>)
    requires |junk| <= |image|
    ensures Splice(image, 0, junk) == image <==> image[..|junk|] == junk
  {
    assert Splice(image, 0, junk)[..|junk|] == junk;
    assert image == image[..|junk|] + image[|junk|..];
  }

  /** A write places its bytes and keeps every other byte of the disk in exactly the same cases. */
  lemma WriteKeepsOthersIff(f: FileMap, image: seq<byte>, image': seq<byte>, offset: nat, size: nat,
                            buffer: seq<byte>, n: nat, junk: seq<byte>)
    requires |buffer| >= size && |junk| == f.bs <= |image|
    requires Outcome(f, image, image', offset, size, WriteFrom, buffer, buffer, n, junk)
    ensures Overwritten(f, image, image', offset, buffer[..n]) <==>
              f.rev.Repaired? || !MeetsMissingRoot(f, image, offset, size) || image[..f.bs] == junk
  {
    hide MeetsMissingRoot;
    RootMissingIffMet(f, image, offset, size, n);
    var spills := f.rev.AsShipped? && RootMissing(f, offset, size, n);
    var written :| Overwritten(f, image, written, offset, buffer[..n]) && image' == Spilt(written, spills, junk);
    SpiltWrite(f, image, written, offset, buffer[..n], spills, junk);
  }

  lemma SpiltWrite(f: FileMap, image: seq<byte>, written: seq<byte>, offset: nat, data: seq<byte>, spills: bool,
                   junk: seq<byte>)
    requires |junk| == f.bs <= |image| == |written|
    requires Overwritten(f, image, written, offset, data)
    requires forall p: nat | offset <= p < offset + |data| :: Mapped(f, image, p)
    ensures Overwritten(f, image, Spilt(written, spills, junk), offset, data) <==>
              !spills || image[..f.bs] == junk
  {
    hide Overwritten, Mapped;
    BlockZeroStays(f, image, written, offset, data);
    SpiltIsSameIff(written, junk);
    if spills && Overwritten(f, image, Spilt(written, spills, junk), offset, data) {
      BlockZeroStays(f, image, Spilt(written, spills, junk), offset, data);
      assert Splice(written, 0, junk)[..f.bs] == junk;
    }
  }

  /** No byte of block 0 is a byte of a file. */
  lemma BlockZeroStays(f: FileMap, image: seq<byte>, image': seq<byte>, offset: nat, data: seq<byte>)
    requires 4 <= f.bs <= |image| && Overwritten(f, image, image', offset, data)
    requires forall p: nat | offset <= p < offset + |data| :: Mapped(f, image, p)
    ensures |image'| == |image| && image'[..f.bs] == image[..f.bs]
  {
    forall p: nat | offset <= p < offset + |data|
      ensures Addr(f, image, p) >= f.bs
    {
      assert Mapped(f, image, p);
      MultipleIsLarge(BlockAt(f, image, BlockIndex(f.bs, p)), f.bs);
    }
    assert forall a: nat | a < f.bs :: !Holds(f, image, offset, |data|, a) && image'[a] == image[a];
  }

  const SUPERBLOCK: nat := 1024

  /** The superblock survives an overwritten block 0 only at the smallest block size. */
  lemma SpillHitsSuperblock(image: seq<byte>, bs: nat, junk: seq<byte>)
    requires ValidBlockSize(bs) && |junk| == bs && 2 * SUPERBLOCK <= |image| && bs <= |image|
    ensures bs == 1024 || bs >= 2 * SUPERBLOCK
    ensures (junk + image[bs..])[SUPERBLOCK..2 * SUPERBLOCK]
         == if bs == 1024 then image[SUPERBLOCK..2 * SUPERBLOCK] else junk[SUPERBLOCK..2 * SUPERBLOCK]
  {
    var k: nat :| k <= 53 && bs == 1024 * Pow2(k);
    assert k > 0 ==> Pow2(k) == 2 * Pow2(k - 1);
    var left := junk + image[bs..];
    if bs == 1024 {
      assert left[SUPERBLOCK..2 * SUPERBLOCK] == image[bs..][..SUPERBLOCK];
    }
  }

  /** The shortest way there: reading one byte past twelve direct blocks of a file without indirect blocks. */
  lemma ReadSpillsExample(image: seq<byte>, bs: nat, junk: seq<byte>) returns (node: Inode, offset: nat)
    requires ValidBlockSize(bs) && |junk| == bs <= |image| && image[..bs] != junk
    ensures bs >= 4 && Walkable(FileMapOf(AsShipped, bs, node), image, offset, 1)
    ensures forall image', before: seq<byte>, buffer, n: nat |
              && |before| == |buffer| >= 1
              && Outcome(FileMapOf(AsShipped, bs, node), image, image', offset, 1, ReadInto, before, buffer, n, junk) ::
              n == 0 && image' != image
  {
    BlockSizeFacts(bs);
    node, offset := InodeFields(seq(12, _ => 0), 0, 0, 0), DIRECT_COUNT * bs;
    DivModIs(offset, bs, DIRECT_COUNT, 0);
    assert Doubly(AsShipped, bs, DIRECT_COUNT) == 0;
    assert !Mapped(FileMapOf(AsShipped, bs, node), image, offset);
    forall image', before: seq<byte>, buffer, n: nat |
      && |before| == |buffer| >= 1
      && Outcome(FileMapOf(AsShipped, bs, node), image, image', offset, 1, ReadInto, before, buffer, n, junk)
      ensures n == 0 && image' != image
    {
      ExtentAt(FileMapOf(AsShipped, bs, node), image, offset, 1, n, 0);
      assert RootMissingAt(FileMapOf(AsShipped, bs, node), image, offset, offset);
      ReadLeavesDiskIff(FileMapOf(AsShipped, bs, node), image, image', offset, 1, before, buffer, n, junk);
    }
  }

  // ---------------------------------------------------------------- what a write does to the file

  /** Overwriting block 0 changes no file: block 0 is neither a table nor data of any. */
  lemma SpillKeepsFile(f: FileMap, image: seq<byte>, p: nat, spills: bool, junk: seq<byte>)
    requires |junk| == f.bs <= |image|
    requires SoundAt(f, image, BlockIndex(f.bs, p)) && Mapped(f, image, p)
    ensures Mapped(f, Spilt(image, spills, junk), p)
    ensures SoundAt(f, Spilt(image, spills, junk), BlockIndex(f.bs, p))
    ensures ByteAt(f, Spilt(image, spills, junk), p) == ByteAt(f, image, p)
  {
    var image' := Spilt(image, spills, junk);
    var start, steps := Start(f, BlockIndex(f.bs, p)), Split(f.rev, f.bs, BlockIndex(f.bs, p)).steps;
    forall t | t in Tables(image, f.bs, start, steps)
      ensures SameBlock(image, image', f.bs, t)
    {
      TablesAreBlocks(image, f.bs, start, steps, t);
      BlockAwayFromZero(image, f.bs, t, junk);
    }
    FollowFrame(image, image', f.bs, start, steps);
    AddrInImage(f, image, p);
    MultipleIsLarge(BlockAt(f, image, BlockIndex(f.bs, p)), f.bs);
  }

  lemma {:induction false} TablesAreBlocks(image: seq<byte>, bs: nat, ptr: nat, steps: seq<nat>, t: nat)
    requires Sound(image, bs, ptr, steps) && t in Tables(image, bs, ptr, steps)
    ensures t != 0 && InImage(image, bs, t)
    decreases |steps|
  {
    if t != ptr {
      TablesAreBlocks(image, bs, TableEntry(BlockBytes(image, bs, ptr), steps[0]), steps[1..], t);
    }
  }

  /** The whole file after a write inside it: the old bytes with the new ones spliced in.  `len` bytes are mapped,
      in blocks that belong to the file alone. */
  lemma WriteSplicesFile(f: FileMap, image: seq<byte>, image': seq<byte>, len: nat, offset: nat, data: seq<byte>,
                         spills: bool, junk: seq<byte>)
    requires |junk| == f.bs <= |image| && offset + |data| <= len
    requires Walkable(f, image, 0, len) && OwnsBlocks(f, image, 0, len)
    requires IsExtent(f, image, 0, len, len)
    requires OverwrittenThenSpilt(f, image, image', offset, data, spills, junk)
    ensures len > 0 ==> Walkable(f, image', 0, len)
    ensures IsExtent(f, image', 0, len, len)
    ensures FileBytes(f, image', 0, len) == Splice(FileBytes(f, image, 0, len), offset, data)
  {
    var written :| Overwritten(f, image, written, offset, data) && image' == Spilt(written, spills, junk);
    forall p: nat | p < len
      ensures SoundAt(f, image', BlockIndex(f.bs, p)) && Mapped(f, image', p)
      ensures ByteAt(f, image', p)
           == if offset <= p < offset + |data| then data[p - offset] else ByteAt(f, image, p)
    {
      ByteAfterWrite(f, image, written, 0, len, offset, data, p);
      SpillKeepsFile(f, written, p, spills, junk);
    }
    RangeOfBytes(f, image', 0, len);
  }

  /** What holds at every position of a range holds of its blocks. */
  lemma RangeOfBytes(f: FileMap, image: seq<byte>, offset: nat, size: nat)
    requires forall p: nat | offset <= p < offset + size ::
               Mapped(f, image, p) && SoundAt(f, image, BlockIndex(f.bs, p))
    ensures size > 0 ==> Walkable(f, image, offset, size)
    ensures IsExtent(f, image, offset, size, size)
  {
    forall idx: nat | size > 0 && Covered(f.bs, offset, size, idx)
      ensures SoundAt(f, image, idx)
    {
      var p := CoveredHasPosition(f.bs, offset, size, idx);
      assert Mapped(f, image, p);
    }
  }

  /** One byte of a file after a write inside the range `[start, start + size)`. */
  lemma ByteAfterWrite(f: FileMap, image: seq<byte>, image': seq<byte>, start: nat, size: nat, offset: nat,
                       data: seq<byte>, p: nat)
    requires start <= offset && offset + |data| <= start + size && start <= p < start + size
    requires Walkable(f, image, start, size) && OwnsBlocks(f, image, start, size)
    requires forall q: nat | start <= q <= p || start <= q < offset + |data| :: Mapped(f, image, q)
    requires Overwritten(f, image, image', offset, data)
    ensures SoundAt(f, image', BlockIndex(f.bs, p)) && Mapped(f, image', p)
    ensures ByteAt(f, image', p)
         == if offset <= p < offset + |data| then data[p - offset] else ByteAt(f, image, p)
  {
    assert Mapped(f, image, p);
    hide *;
    PositionIsReached(f, image, start, size, p);
    WalkableAt(f, image, start, size, BlockIndex(f.bs, p));
    OwnerKeepsApart(f, image, start, size);
    TablesSurvive(f, image, image', start, size, offset, data, BlockIndex(f.bs, p));
    PlaceStays(f, image, image', p);
    if offset <= p < offset + |data| {
      NeverTakenLater(f, image, start, size, p, offset + |data|);
      NewByte(f, image, image', offset, data, p);
    } else {
      NotHeld(f, image, start, size, offset, |data|, p);
      OldByte(f, image, image', offset, data, p);
    }
  }

  lemma OwnerKeepsApart(f: FileMap, image: seq<byte>, offset: nat, size: nat)
    requires OwnsBlocks(f, image, offset, size)
    ensures DataApart(f, image, offset, size)
  {}

  lemma PlaceStays(f: FileMap, image: seq<byte>, image': seq<byte>, p: nat)
    requires SoundAt(f, image, BlockIndex(f.bs, p)) && Mapped(f, image, p)
    requires BlockAt(f, image', BlockIndex(f.bs, p)) == BlockAt(f, image, BlockIndex(f.bs, p))
    ensures Addr(f, image', p) == Addr(f, image, p) < |image|
    ensures Mapped(f, image', p)
  {
    AddrInImage(f, image, p);
  }

  lemma NewByte(f: FileMap, image: seq<byte>, image': seq<byte>, offset: nat, data: seq<byte>, p: nat)
    requires offset <= p < offset + |data| && Overwritten(f, image, image', offset, data)
    requires !TakenLater(f, image, p, offset + |data|)
    requires Addr(f, image', p) == Addr(f, image, p) < |image|
    ensures ByteAt(f, image', p) == data[p - offset]
  {
    hide Addr, TakenLater, Holds;
    assert Stands(f, image, image', offset, data, p);
  }

  lemma OldByte(f: FileMap, image: seq<byte>, image': seq<byte>, offset: nat, data: seq<byte>, p: nat)
    requires Overwritten(f, image, image', offset, data)
    requires !Holds(f, image, offset, |data|, Addr(f, image, p))
    requires Addr(f, image', p) == Addr(f, image, p) < |image|
    ensures ByteAt(f, image', p) == ByteAt(f, image, p)
  {
    hide Addr, TakenLater, Holds;
  }

  lemma NotHeld(f: FileMap, image: seq<byte>, start: nat, size: nat, offset: nat, n: nat, p: nat)
    requires OwnsBlocks(f, image, start, size)
    requires start <= offset && offset + n <= start + size && start <= p < start + size
    requires forall q: nat | start <= q <= p || start <= q < offset + n :: Mapped(f, image, q)
    requires !(offset <= p < offset + n)
    ensures !Holds(f, image, offset, n, Addr(f, image, p))
  {
    hide OwnsBlocks, Addr, Mapped;
    forall q: nat | offset <= q < offset + n
      ensures Addr(f, image, q) != Addr(f, image, p)
    {
      if Addr(f, image, q) == Addr(f, image, p) {
        AddrIsInjective(f, image, start, size, p, q);
      }
    }
  }

  /** A read of what was written returns it, whatever the write did to block 0. */
  lemma WriteThenRead(f: FileMap, image: seq<byte>, image': seq<byte>, offset: nat, size: nat, buffer: seq<byte>,
                      n: nat, junk: seq<byte>)
    requires |junk| == f.bs <= |image| && |buffer| >= size
    requires Walkable(f, image, offset, size) && OwnsBlocks(f, image, offset, size)
    requires Outcome(f, image, image', offset, size, WriteFrom, buffer, buffer, n, junk)
    ensures n > 0 ==> Walkable(f, image', offset, n)
    ensures IsExtent(f, image', offset, n, n)
    ensures FileBytes(f, image', offset, n) == buffer[..n]
  {
    var spills := f.rev.AsShipped? && RootMissing(f, offset, size, n);
    var written :| Overwritten(f, image, written, offset, buffer[..n])
        && image' == Spilt(written, spills, junk);
    forall p: nat | offset <= p < offset + n
      ensures SoundAt(f, image', BlockIndex(f.bs, p)) && Mapped(f, image', p)
      ensures ByteAt(f, image', p) == buffer[p - offset]
    {
      ByteReadBack(f, image, written, image', offset, size, buffer[..n], p, BlockIndex(f.bs, p), spills, junk);
    }
    RangeOfBytes(f, image', offset, n);
  }

  lemma ByteReadBack(f: FileMap, image: seq<byte>, written: seq<byte>, image': seq<byte>, offset: nat, size: nat,
                     data: seq<byte>, p: nat, idx: nat, spills: bool, junk: seq<byte>)
    requires |data| <= size && offset <= p < offset + |data| && idx == BlockIndex(f.bs, p)
              && |junk| == f.bs <= |image|
    requires Walkable(f, image, offset, size) && OwnsBlocks(f, image, offset, size)
    requires forall q: nat | offset <= q < offset + |data| :: Mapped(f, image, q)
    requires Overwritten(f, image, written, offset, data) && |written| == |image|
    requires image' == Spilt(written, spills, junk)
    ensures SoundAt(f, image', idx) && Mapped(f, image', p)
    ensures ByteAt(f, image', p) == data[p - offset]
  {
    hide *;
    ByteAfterWrite(f, image, written, offset, size, offset, data, p);
    SpillKeepsFile(f, written, p, spills, junk);
  }

  lemma WalkableAt(f: FileMap, image: seq<byte>, offset: nat, size: nat, idx: nat)
    requires Walkable(f, image, offset, size)
    requires Reached(f, image, offset, size, idx)
    ensures SoundAt(f, image, idx)
  {}

  // ---------------------------------------------------------------- the layout

  /** On this disk, the two sets of divisors move the same number of bytes and the same bytes. */
  ghost predicate SameRead(image: seq<byte>, bs: nat, node: Inode, offset: nat, size: nat)
    requires bs >= 4
  {
    && (forall n: nat ::
          IsExtent(FileMapOf(AsShipped, bs, node), image, offset, size, n) <==>
          IsExtent(FileMapOf(Repaired, bs, node), image, offset, size, n))
    && (forall n: nat | IsExtent(FileMapOf(Repaired, bs, node), image, offset, size, n) ::
          FileBytes(FileMapOf(AsShipped, bs, node), image, offset, n)
          == FileBytes(FileMapOf(Repaired, bs, node), image, offset, n))
  }

  /** The shipped divisors read a range right on every disk exactly when its last block is below 12 + `block_size / 4`.
      For any range beyond there is a disk on which they return the full size and wrong bytes. */
  lemma ShippedReadIsRightIff(bs: nat, offset: nat, size: nat)
    requires ValidBlockSize(bs) && bs >= 4 && size > 0 && offset + size <= Capacity(bs / 4) * bs
    ensures (forall image, node |
               Walkable(FileMapOf(AsShipped, bs, node), image, offset, size)
                   && Walkable(FileMapOf(Repaired, bs, node), image, offset, size) ::
               SameRead(image, bs, node, offset, size))
       <==> BlockIndex(bs, offset + size - 1) < DIRECT_COUNT + bs / 4
  {
    var last := BlockIndex(bs, offset + size - 1);
    if last < DIRECT_COUNT + bs / 4 {
      forall image, node
        ensures SameRead(image, bs, node, offset, size)
      {
        LowReadsAgree(image, bs, node, offset, size);
      }
    } else {
      DivBelow(offset + size - 1, bs, Capacity(bs / 4));
      var image, node := ShippedTakesWrongBlock(bs, last);
      ReadsDiffer(image, bs, node, offset, size);
      assert Walkable(FileMapOf(AsShipped, bs, node), image, offset, size);
      assert Walkable(FileMapOf(Repaired, bs, node), image, offset, size);
      assert !SameRead(image, bs, node, offset, size);
    }
  }

  lemma LowReadsAgree(image: seq<byte>, bs: nat, node: Inode, offset: nat, size: nat)
    requires ValidBlockSize(bs) && bs >= 4 && size > 0 && BlockIndex(bs, offset + size - 1) < DIRECT_COUNT + bs / 4
    ensures SameRead(image, bs, node, offset, size)
  {
    forall p: nat | offset <= p < offset + size
      ensures Mapped(FileMapOf(AsShipped, bs, node), image, p) == Mapped(FileMapOf(Repaired, bs, node), image, p)
      ensures ByteAt(FileMapOf(AsShipped, bs, node), image, p) == ByteAt(FileMapOf(Repaired, bs, node), image, p)
    {
      DivMonotone(p, offset + size - 1, bs);
      if BlockIndex(bs, p) >= DIRECT_COUNT {
        DivisorsAgreeBelow(bs, BlockIndex(bs, p));
      }
    }
  }

  lemma ReadsDiffer(image: seq<byte>, bs: nat, node: Inode, offset: nat, size: nat)
    requires bs >= 4 && size > 0
    requires forall rev, i: nat ::
               SoundAt(FileMapOf(rev, bs, node), image, i) && BlockAt(FileMapOf(rev, bs, node), image, i) != 0
    requires InImage(image, bs, RIGHT) && forall at | 0 <= at < bs :: BlockBytes(image, bs, RIGHT)[at] == 1
    requires InImage(image, bs, WRONG) && forall at | 0 <= at < bs :: BlockBytes(image, bs, WRONG)[at] == 2
    requires BlockAt(FileMapOf(Repaired, bs, node), image, BlockIndex(bs, offset + size - 1)) == RIGHT
    requires BlockAt(FileMapOf(AsShipped, bs, node), image, BlockIndex(bs, offset + size - 1)) == WRONG
    ensures IsExtent(FileMapOf(AsShipped, bs, node), image, offset, size, size)
    ensures !SameRead(image, bs, node, offset, size)
  {
    forall rev
      ensures IsExtent(FileMapOf(rev, bs, node), image, offset, size, size)
    {
    }
    LastByte(FileMapOf(AsShipped, bs, node), image, offset, size, WRONG, 2);
    LastByte(FileMapOf(Repaired, bs, node), image, offset, size, RIGHT, 1);
  }

  /** The last byte of a range, when its block is `v` throughout. */
  lemma LastByte(f: FileMap, image: seq<byte>, offset: nat, size: nat, block: nat, v: byte)
    requires size > 0 && BlockAt(f, image, BlockIndex(f.bs, offset + size - 1)) == block
    requires InImage(image, f.bs, block) && forall at | 0 <= at < f.bs :: BlockBytes(image, f.bs, block)[at] == v
    ensures FileBytes(f, image, offset, size)[size - 1] == v
  {
    hide BlockAt;
    var p := offset + size - 1;
    assert BlockBytes(image, f.bs, block)[p % f.bs] == image[block * f.bs + p % f.bs];
    assert offset + (size - 1) == p;
  }
}
