// Reading and writing a byte range of an inode: the loop of the block walk, its exit path, and what it leaves on
// the disk and in the caller's buffer.

module Ext2Traverse {
  import opened Bytes
  import opened Revisions
  import opened Ext2Layout
  import opened Ext2Blocks
  import opened Ext2Walk

  /** The two callbacks that are passed to the walk. */
  datatype Callback = ReadInto | WriteFrom

  // ---------------------------------------------------------------- the file as bytes

  ghost predicate Mapped(f: FileMap, image: seq<byte>, p: nat) {
    BlockAt(f, image, BlockIndex(f.bs, p)) != 0
  }

  /** Where byte `p` of the file lies on the disk. */
  ghost function Addr(f: FileMap, image: seq<byte>, p: nat): nat {
    ProductOfNats(BlockAt(f, image, BlockIndex(f.bs, p)), f.bs);
    BlockAt(f, image, BlockIndex(f.bs, p)) * f.bs + p % f.bs
  }

  /** Byte `p` of the file. */
  ghost function ByteAt(f: FileMap, image: seq<byte>, p: nat): byte {
    var a := Addr(f, image, p);
    if a < |image| then image[a] else 0
  }

  ghost function FileBytes(f: FileMap, image: seq<byte>, offset: nat, n: nat): (r: seq<byte>)
    ensures |r| == n
    ensures forall i | 0 <= i < n :: r[i] == ByteAt(f, image, offset + i)
  {
    seq<byte>(n, i requires 0 <= i < n => ByteAt(f, image, offset + i))
  }

  /** The file blocks that `[offset, offset + size)` touches. */
  predicate Covered(bs: nat, offset: nat, size: nat, idx: nat)
    requires bs >= 4
  {
    BlockIndex(bs, offset) <= idx && idx * bs < offset + size
  }

  /** The walk gets to file block `idx`: the range touches it, and all blocks of the range before it are mapped. */
  ghost predicate Reached(f: FileMap, image: seq<byte>, offset: nat, size: nat, idx: nat) {
    && Covered(f.bs, offset, size, idx)
    && forall j: nat | BlockIndex(f.bs, offset) <= j < idx :: BlockAt(f, image, j) != 0
  }

  /** Every pointer that the walk looks at leads into the image. */
  ghost predicate Walkable(f: FileMap, image: seq<byte>, offset: nat, size: nat) {
    forall idx: nat | Reached(f, image, offset, size, idx) :: SoundAt(f, image, idx)
  }

  /** The range is mapped for exactly `n` bytes. */
  ghost predicate IsExtent(f: FileMap, image: seq<byte>, offset: nat, size: nat, n: nat) {
    && n <= size
    && (forall p: nat | offset <= p < offset + n :: Mapped(f, image, p))
    && (n < size ==> !Mapped(f, image, offset + n))
  }

  /** The first unmapped block of the range hangs off a root table pointer that is itself zero. */
  ghost predicate RootMissing(f: FileMap, offset: nat, size: nat, n: nat) {
    n < size && BlockIndex(f.bs, offset + n) >= DIRECT_COUNT && Start(f, BlockIndex(f.bs, offset + n)) == 0
  }

  // ---------------------------------------------------------------- what a write needs

  /** No block that the walk gets to is also a pointer table that it needs. */
  ghost predicate DataApart(f: FileMap, image: seq<byte>, offset: nat, size: nat) {
    forall i: nat, j: nat |
      Reached(f, image, offset, size, i) && Reached(f, image, offset, size, j) ::
      BlockAt(f, image, i) != 0 ==>
        BlockAt(f, image, i) !in TablesAt(f, image, j)
  }

  /** ... and no two of them are the same. */
  ghost predicate OwnsBlocks(f: FileMap, image: seq<byte>, offset: nat, size: nat) {
    && DataApart(f, image, offset, size)
    && (forall i: nat, j: nat |
          Reached(f, image, offset, size, i) && Reached(f, image, offset, size, j) && i != j ::
          BlockAt(f, image, i) != 0 ==>
            BlockAt(f, image, i) != BlockAt(f, image, j))
  }

  /** The place of byte `p` of the file is also that of a later byte before `end`. */
  ghost predicate TakenLater(f: FileMap, image: seq<byte>, p: nat, end: nat) {
    exists q: nat :: p < q < end && Addr(f, image, q) == Addr(f, image, p)
  }

  /** `image'` is `image` with `data` at the bytes that the file has from `offset`, and nothing else changed.  Where two
      bytes of the file share a place, the later one is there. */
  ghost predicate Overwritten(f: FileMap, image: seq<byte>, image': seq<byte>, offset: nat, data: seq<byte>) {
    && |image'| == |image|
    && (forall p: nat | offset <= p < offset + |data| :: Stands(f, image, image', offset, data, p))
    && (forall a: nat | a < |image| && !Holds(f, image, offset, |data|, a) :: image'[a] == image[a])
  }

  ghost predicate Stands(f: FileMap, image: seq<byte>, image': seq<byte>, offset: nat, data: seq<byte>, p: nat)
    requires |image'| == |image| && offset <= p < offset + |data|
  {
    && Addr(f, image, p) < |image|
    && (TakenLater(f, image, p, offset + |data|) || image'[Addr(f, image, p)] == data[p - offset])
  }

  /** Disk byte `a` is one of the `n` bytes that the file has from `offset`. */
  ghost predicate Holds(f: FileMap, image: seq<byte>, offset: nat, n: nat, a: nat) {
    exists p: nat :: offset <= p < offset + n && Addr(f, image, p) == a
  }

  // ---------------------------------------------------------------- one step of the loop

  /** The bytes of one chunk lie side by side on the disk. */
  lemma ChunkIsContiguous(f: FileMap, image: seq<byte>, p: nat, j: nat)
    requires p % f.bs + j < f.bs
    ensures BlockIndex(f.bs, p + j) == BlockIndex(f.bs, p)
    ensures Addr(f, image, p + j) == Addr(f, image, p) + j
    ensures Mapped(f, image, p + j) == Mapped(f, image, p)
  {
    DivModIs(p + j, f.bs, BlockIndex(f.bs, p), p % f.bs + j);
  }

  lemma AddrInImage(f: FileMap, image: seq<byte>, p: nat)
    requires SoundAt(f, image, BlockIndex(f.bs, p)) && Mapped(f, image, p)
    ensures InImage(image, f.bs, BlockAt(f, image, BlockIndex(f.bs, p)))
    ensures BlockAt(f, image, BlockIndex(f.bs, p)) * f.bs + f.bs <= |image|
    ensures Addr(f, image, p) < |image|
  {
    FollowInImage(image, f.bs, Start(f, BlockIndex(f.bs, p)), Split(f.rev, f.bs, BlockIndex(f.bs, p)).steps);
    var b := BlockAt(f, image, BlockIndex(f.bs, p));
    assert (b + 1) * f.bs == b * f.bs + f.bs;
  }

  lemma CoveredHasPosition(bs: nat, offset: nat, size: nat, idx: nat) returns (p: nat)
    requires bs >= 4 && size > 0 && Covered(bs, offset, size, idx)
    ensures offset <= p < offset + size && BlockIndex(bs, p) == idx
  {
    p := if idx == BlockIndex(bs, offset) then offset else idx * bs;
    DivModIs(idx * bs, bs, idx, 0);
    DivBelow(offset, bs, idx);
  }

  lemma PositionIsReached(f: FileMap, image: seq<byte>, offset: nat, size: nat, p: nat)
    requires offset <= p < offset + size
    requires forall q: nat | offset <= q < p :: Mapped(f, image, q)
    ensures Reached(f, image, offset, size, BlockIndex(f.bs, p))
  {
    hide BlockAt;
    DivMonotone(offset, p, f.bs);
    assert Covered(f.bs, offset, size, BlockIndex(f.bs, p));
    forall j: nat | BlockIndex(f.bs, offset) <= j < BlockIndex(f.bs, p)
      ensures BlockAt(f, image, j) != 0
    {
      BlockBefore(f.bs, p, j);
      var q := CoveredHasPosition(f.bs, offset, p - offset, j);
      assert Mapped(f, image, q);
    }
  }

  lemma BlockBefore(bs: nat, p: nat, j: nat)
    requires bs > 0 && j < BlockIndex(bs, p)
    ensures j * bs < p
  {
    DivBelow(p, bs, j + 1);
    assert (j + 1) * bs == j * bs + bs;
  }

  lemma AddrParts(f: FileMap, image: seq<byte>, p: nat)
    ensures Addr(f, image, p) / f.bs == BlockAt(f, image, BlockIndex(f.bs, p))
    ensures Addr(f, image, p) % f.bs == p % f.bs
    ensures p == BlockIndex(f.bs, p) * f.bs + p % f.bs
  {
    var b := BlockAt(f, image, BlockIndex(f.bs, p));
    assert Addr(f, image, p) == b * f.bs + p % f.bs;
    hide *;
    PositionParts(f.bs, p);
    DivModIs(Addr(f, image, p), f.bs, b, p % f.bs);
  }

  lemma PositionParts(bs: nat, p: nat)
    requires bs > 0
    ensures p == BlockIndex(bs, p) * bs + p % bs && 0 <= p % bs < bs
  {
    DivModSplit(p, bs);
  }

  /** Two bytes of a file that owns its blocks never share a place. */
  lemma AddrIsInjective(f: FileMap, image: seq<byte>, offset: nat, size: nat, p: nat, q: nat)
    requires OwnsBlocks(f, image, offset, size)
    requires offset <= p < offset + size && offset <= q < offset + size
    requires forall x: nat | offset <= x <= p || offset <= x <= q :: Mapped(f, image, x)
    requires Addr(f, image, p) == Addr(f, image, q)
    ensures p == q
  {
    PositionIsReached(f, image, offset, size, p);
    PositionIsReached(f, image, offset, size, q);
    AddrParts(f, image, p);
    AddrParts(f, image, q);
    assert BlockIndex(f.bs, p) == BlockIndex(f.bs, q);
  }

  lemma NeverTakenLater(f: FileMap, image: seq<byte>, offset: nat, size: nat, p: nat, end: nat)
    requires OwnsBlocks(f, image, offset, size)
    requires offset <= p && end <= offset + size
    requires forall x: nat | offset <= x < end :: Mapped(f, image, x)
    ensures !TakenLater(f, image, p, end)
  {
    forall q: nat | p < q < end && Addr(f, image, q) == Addr(f, image, p)
      ensures false
    {
      AddrIsInjective(f, image, offset, size, p, q);
    }
  }

  /** Writing file bytes leaves alone every pointer table that the range `[start, start + size)` needs. */
  lemma TablesSurvive(f: FileMap, image: seq<byte>, image': seq<byte>, start: nat, size: nat, offset: nat,
                      data: seq<byte>, idx: nat)
    requires start <= offset && offset + |data| <= start + size
    requires Reached(f, image, start, size, idx)
    requires DataApart(f, image, start, size) && SoundAt(f, image, idx)
    requires forall p: nat | start <= p < offset + |data| :: Mapped(f, image, p)
    requires Overwritten(f, image, image', offset, data)
    ensures forall t | t in TablesAt(f, image, idx) :: SameBlock(image, image', f.bs, t)
    ensures SoundAt(f, image', idx)
    ensures BlockAt(f, image', idx) == BlockAt(f, image, idx)
    ensures TablesAt(f, image', idx) == TablesAt(f, image, idx)
  {
    forall t | t in TablesAt(f, image, idx)
      ensures SameBlock(image, image', f.bs, t)
    {
      TableSurvives(f, image, image', start, size, offset, data, idx, t);
    }
    FollowFrame(image, image', f.bs, Start(f, idx), Split(f.rev, f.bs, idx).steps);
  }

  lemma TableSurvives(f: FileMap, image: seq<byte>, image': seq<byte>, start: nat, size: nat, offset: nat,
                      data: seq<byte>, idx: nat, t: nat)
    requires start <= offset && offset + |data| <= start + size
    requires Reached(f, image, start, size, idx)
    requires DataApart(f, image, start, size)
    requires t in TablesAt(f, image, idx)
    requires forall p: nat | start <= p < offset + |data| :: Mapped(f, image, p)
    requires Overwritten(f, image, image', offset, data)
    ensures SameBlock(image, image', f.bs, t)
  {
    if InImage(image, f.bs, t) {
      forall x: nat | t * f.bs <= x < t * f.bs + f.bs
        ensures !Holds(f, image, offset, |data|, x)
      {
        ByteIsOutside(f, image, start, size, offset, |data|, idx, t, x);
      }
      UntouchedBlock(f, image, image', offset, data, t);
    }
  }

  lemma UntouchedBlock(f: FileMap, image: seq<byte>, image': seq<byte>, offset: nat, data: seq<byte>, t: nat)
    requires Overwritten(f, image, image', offset, data)
    requires forall x: nat | t * f.bs <= x < t * f.bs + f.bs :: !Holds(f, image, offset, |data|, x)
    ensures SameBlock(image, image', f.bs, t)
  {
    assert (t + 1) * f.bs == t * f.bs + f.bs;
    if InImage(image, f.bs, t) {
      assert forall x: nat | t * f.bs <= x < t * f.bs + f.bs :: image'[x] == image[x];
    }
  }

  /** No byte of a table is a byte of the file. */
  lemma ByteIsOutside(f: FileMap, image: seq<byte>, start: nat, size: nat, offset: nat, n: nat, idx: nat, t: nat,
                      x: nat)
    requires start <= offset && offset + n <= start + size
    requires Reached(f, image, start, size, idx)
    requires DataApart(f, image, start, size)
    requires t in TablesAt(f, image, idx) && t * f.bs <= x < t * f.bs + f.bs
    requires forall p: nat | start <= p < offset + n :: Mapped(f, image, p)
    ensures !Holds(f, image, offset, n, x)
  {
    DivModIs(x, f.bs, t, x - t * f.bs);
    forall p: nat | offset <= p < offset + n
      ensures Addr(f, image, p) != x
    {
      PositionIsReached(f, image, start, size, p);
      assert Mapped(f, image, p);
      AddrParts(f, image, p);
    }
  }

  /** One more chunk on top of a prefix that is already written. */
  lemma ChunkExtends(f: FileMap, image: seq<byte>, image': seq<byte>, offset: nat, data: seq<byte>, chunk: seq<byte>)
    requires chunk != []
    requires (offset + |data|) % f.bs + |chunk| <= f.bs
    requires Overwritten(f, image, image', offset, data)
    requires Addr(f, image, offset + |data|) + |chunk| <= |image|
    ensures Overwritten(f, image, Splice(image', Addr(f, image, offset + |data|), chunk), offset, data + chunk)
  {
    var image'' := Splice(image', Addr(f, image, offset + |data|), chunk);
    hide Addr, TakenLater, Stands, Holds;
    forall q: nat | offset <= q < offset + |data + chunk|
      ensures Stands(f, image, image'', offset, data + chunk, q)
    {
      if q >= offset + |data| {
        ChunkStands(f, image, image', offset, data, chunk, q);
      } else {
        PrefixStands(f, image, image', offset, data, chunk, q);
      }
    }
    forall a: nat | a < |image| && !Holds(f, image, offset, |data + chunk|, a)
      ensures image''[a] == image[a]
    {
      HoldsMore(f, image, offset, |data|, |chunk|, a);
    }
  }

  lemma ChunkStands(f: FileMap, image: seq<byte>, image': seq<byte>, offset: nat, data: seq<byte>, chunk: seq<byte>,
                    q: nat)
    requires offset + |data| <= q < offset + |data| + |chunk| && (offset + |data|) % f.bs + |chunk| <= f.bs
    requires Addr(f, image, offset + |data|) + |chunk| <= |image| == |image'|
    ensures Stands(f, image, Splice(image', Addr(f, image, offset + |data|), chunk), offset, data + chunk, q)
  {
    ChunkIsContiguous(f, image, offset + |data|, q - (offset + |data|));
    hide Addr, TakenLater;
  }

  lemma PrefixStands(f: FileMap, image: seq<byte>, image': seq<byte>, offset: nat, data: seq<byte>, chunk: seq<byte>,
                     q: nat)
    requires offset <= q < offset + |data| && (offset + |data|) % f.bs + |chunk| <= f.bs
    requires Addr(f, image, offset + |data|) + |chunk| <= |image| == |image'|
    requires Stands(f, image, image', offset, data, q)
    ensures Stands(f, image, Splice(image', Addr(f, image, offset + |data|), chunk), offset, data + chunk, q)
  {
    hide Addr, TakenLater;
    ChunkTakesPlace(f, image, offset + |data|, |chunk|, q);
  }

  lemma ChunkTakesPlace(f: FileMap, image: seq<byte>, p: nat, m: nat, q: nat)
    requires q < p && p % f.bs + m <= f.bs
    ensures TakenLater(f, image, q, p) ==> TakenLater(f, image, q, p + m)
    ensures Addr(f, image, p) <= Addr(f, image, q) < Addr(f, image, p) + m ==> TakenLater(f, image, q, p + m)
  {
    var j := Addr(f, image, q) - Addr(f, image, p);
    if 0 <= j < m {
      ChunkIsContiguous(f, image, p, j);
    }
  }

  /** A byte outside a longer range is outside the shorter one, and outside the chunk between the two. */
  lemma HoldsMore(f: FileMap, image: seq<byte>, offset: nat, n: nat, m: nat, a: nat)
    requires (offset + n) % f.bs + m <= f.bs
    requires !Holds(f, image, offset, n + m, a)
    ensures !Holds(f, image, offset, n, a)
    ensures !(Addr(f, image, offset + n) <= a < Addr(f, image, offset + n) + m)
  {
    var j := a - Addr(f, image, offset + n);
    if 0 <= j < m {
      ChunkIsContiguous(f, image, offset + n, j);
    }
  }

  // ---------------------------------------------------------------- the walk

  /** `ext2_read_callback` and `ext2_write_callback`: move the rest of one block between disk and buffer. */
  method Transfer(op: Callback, part: Partition, bs: nat, block: nat, traversed: nat, jank: nat,
                  buffer: array<byte>, size: nat)
    returns (n: nat)
    requires jank < bs && traversed < size <= buffer.Length && block * bs + bs <= |part.image|
    modifies part, buffer
    ensures n == Min(bs - jank, size - traversed)
    ensures op.ReadInto? ==> part.image == old(part.image)
    ensures op.ReadInto? ==>
              buffer[..] == Splice(old(buffer[..]), traversed, part.image[block * bs + jank..block * bs + jank + n])
    ensures op.WriteFrom? ==> buffer[..] == old(buffer[..])
    ensures op.WriteFrom? ==>
              part.image == Splice(old(part.image), block * bs + jank, buffer[traversed..traversed + n])
  {
    part.Seek(block * bs + jank);
    n := Min(bs - jank, size - traversed);
    match op
    case ReadInto =>
      var data := part.Read(n);
      forall i | 0 <= i < n {
        buffer[traversed + i] := data[i];
      }
    case WriteFrom =>
      part.Write(buffer[traversed..traversed + n]);
  }

  lemma BlockAwayFromZero(image: seq<byte>, bs: nat, block: nat, junk: seq<byte>)
    requires |junk| == bs > 0 && block != 0 && InImage(image, bs, block)
    ensures |junk| <= |image|
    ensures InImage(Splice(image, 0, junk), bs, block)
    ensures BlockBytes(Splice(image, 0, junk), bs, block) == BlockBytes(image, bs, block)
  {
    assert (block + 1) * bs == block * bs + bs && block * bs >= bs by { MultipleIsLarge(block, bs); }
  }

  /** Write one table back on the exit path: a no-op, or block 0 under a buffer that nothing was read into. */
  method FlushTable(part: Partition, bs: nat, table: Buffer, tag: nat, junk: seq<byte>)
    requires CleanOrJunk(part.image, bs, table, tag, junk) && 0 < |junk| == bs <= |part.image|
    modifies part
    ensures part.image == Spilt(old(part.image), table == Table(junk) && tag == 0, junk)
  {
    if table.Table? {
      if tag != 0 {
        WriteBack(part, bs, table, tag);
      } else {
        part.Seek(tag * bs);
        part.Write(table.bytes);
      }
    }
  }

  lemma SpillKeepsTable(image: seq<byte>, bs: nat, table: Buffer, tag: nat, spills: bool, junk: seq<byte>)
    requires 0 < |junk| == bs <= |image| && CleanOrJunk(image, bs, table, tag, junk)
    ensures CleanOrJunk(Spilt(image, spills, junk), bs, table, tag, junk)
  {
    if spills && tag != 0 && table.Table? {
      BlockAwayFromZero(image, bs, tag, junk);
    }
  }

  lemma SpillTwice(image: seq<byte>, spills: bool, again: bool, junk: seq<byte>)
    requires |junk| <= |image|
    ensures Spilt(Spilt(image, spills, junk), again, junk) == Spilt(image, spills || again, junk)
  {}

  /** The exit path: write the three tables back. */
  method Flush(part: Partition, bs: nat, node: Inode, c: Cache, junk: seq<byte>)
    requires ReadyToFlush(part.image, bs, node, c, junk) && 0 < |junk| == bs <= |part.image|
    modifies part
    ensures part.image == Spilt(old(part.image), Spills(c, node, junk), junk)
  {
    ghost var image := part.image;
    ghost var spill3 := c.tibp == Table(junk) && node.tibp == 0;
    ghost var spill2 := c.dibp == Table(junk) && c.DibpTag(node) == 0;
    FlushTable(part, bs, c.tibp, node.tibp, junk);
    SpillKeepsTable(image, bs, c.dibp, c.DibpTag(node), spill3, junk);
    FlushTable(part, bs, c.dibp, c.DibpTag(node), junk);
    SpillTwice(image, spill3, spill2, junk);
    SpillKeepsTable(image, bs, c.sibp, c.SibpTag(node), spill3 || spill2, junk);
    FlushTable(part, bs, c.sibp, c.SibpTag(node), junk);
    SpillTwice(image, spill3 || spill2, c.sibp == Table(junk) && c.SibpTag(node) == 0, junk);
  }

  /** `t` is a table that some block of the range needs. */
  ghost predicate NeededTable(f: FileMap, image: seq<byte>, offset: nat, size: nat, t: nat) {
    exists idx: nat :: Reached(f, image, offset, size, idx) && t in TablesAt(f, image, idx)
  }

  /** The caches stay right while file bytes are being written. */
  lemma CacheSurvives(f: FileMap, image: seq<byte>, image1: seq<byte>, image2: seq<byte>, offset: nat, size: nat,
                      data1: seq<byte>, data2: seq<byte>, c: Cache)
    requires |data1| <= |data2| <= size && DataApart(f, image, offset, size)
    requires Walkable(f, image, offset, size)
    requires forall p: nat | offset <= p < offset + |data2| :: Mapped(f, image, p)
    requires Overwritten(f, image, image1, offset, data1)
    requires Overwritten(f, image, image2, offset, data2)
    requires forall t | t in c.Tags(f.node) :: NeededTable(f, image, offset, size, t)
    requires CacheOk(image1, f.bs, f.node, c)
    ensures CacheOk(image2, f.bs, f.node, c)
  {
    forall t | t in c.Tags(f.node)
      ensures SameBlock(image1, image2, f.bs, t)
    {
      var idx: nat :| Reached(f, image, offset, size, idx) && t in TablesAt(f, image, idx);
      TablesSurvive(f, image, image1, offset, size, offset, data1, idx);
      TablesSurvive(f, image, image2, offset, size, offset, data2, idx);
      assert SameBlock(image, image1, f.bs, t) && SameBlock(image, image2, f.bs, t);
    }
    assert c.sibp.Table? ==> c.SibpTag(f.node) in c.Tags(f.node);
    assert c.dibp.Table? ==> c.DibpTag(f.node) in c.Tags(f.node);
    assert c.tibp.Table? ==> f.node.tibp in c.Tags(f.node);
  }

  /** A chunk that is mapped at its first byte is mapped throughout. */
  lemma MappedFurther(f: FileMap, image: seq<byte>, offset: nat, n: nat, m: nat)
    requires (offset + n) % f.bs + m <= f.bs
    requires forall p: nat | offset <= p < offset + n :: Mapped(f, image, p)
    requires Mapped(f, image, offset + n)
    ensures forall p: nat | offset <= p < offset + n + m :: Mapped(f, image, p)
  {
    forall p: nat | offset + n <= p < offset + n + m
      ensures Mapped(f, image, p)
    {
      ChunkIsContiguous(f, image, offset + n, p - (offset + n));
    }
  }

  /** What one chunk brings into the buffer is the next stretch of the file. */
  lemma ChunkIsFileBytes(f: FileMap, image: seq<byte>, p: nat, m: nat)
    requires p % f.bs + m <= f.bs && SoundAt(f, image, BlockIndex(f.bs, p))
              && Mapped(f, image, p)
    ensures Addr(f, image, p) + m <= |image|
    ensures image[Addr(f, image, p)..Addr(f, image, p) + m]
              == FileBytes(f, image, p, m)
  {
    AddrInImage(f, image, p);
    var at := Addr(f, image, p);
    forall i | 0 <= i < m
      ensures image[at..at + m][i] == FileBytes(f, image, p, m)[i]
    {
      ChunkIsContiguous(f, image, p, i);
    }
  }

  /** The written image, up to what the exit path may do to block 0. */
  ghost predicate OverwrittenThenSpilt(f: FileMap, image: seq<byte>, image': seq<byte>, offset: nat, data: seq<byte>,
                                       spills: bool, junk: seq<byte>)
    requires |junk| <= |image|
  {
    exists written :: Overwritten(f, image, written, offset, data) && image' == Spilt(written, spills, junk)
  }

  /** The loop invariant: how far the walk is, and what it has done to the disk and the buffer. */
  ghost predicate Progress(f: FileMap, image: seq<byte>, now: seq<byte>, offset: nat, size: nat, op: Callback,
                           before: seq<byte>, buffer: seq<byte>, traversed: nat)
    requires |before| == |buffer| >= size
  {
    && traversed <= size
    && (forall p: nat | offset <= p < offset + traversed :: Mapped(f, image, p))
    && match op
       case ReadInto =>
         && now == image
         && buffer == FileBytes(f, image, offset, traversed) + before[traversed..]
       case WriteFrom => buffer == before && Overwritten(f, image, now, offset, before[..traversed])
  }

  /** ... and in what state its table buffers are. */
  ghost predicate CacheInv(f: FileMap, image: seq<byte>, now: seq<byte>, offset: nat, size: nat, traversed: nat,
                           c: Cache)
  {
    && CacheOk(now, f.bs, f.node, c)
    && Ordered(f.rev, f.bs, c, BlockIndex(f.bs, traversed + offset))
    && forall t | t in c.Tags(f.node) :: NeededTable(f, image, offset, size, t)
  }

  /** The block map of the range is still the one that the walk started with. */
  lemma MapSurvives(f: FileMap, image: seq<byte>, now: seq<byte>, offset: nat, size: nat, op: Callback,
                    before: seq<byte>, buffer: seq<byte>, traversed: nat)
    requires |before| == |buffer| >= size && traversed < size
    requires Walkable(f, image, offset, size)
    requires op.WriteFrom? ==> DataApart(f, image, offset, size)
    requires Progress(f, image, now, offset, size, op, before, buffer, traversed)
    ensures var idx := BlockIndex(f.bs, traversed + offset);
            && Reached(f, image, offset, size, idx)
            && |now| == |image|
            && SoundAt(f, image, idx)
            && SoundAt(f, now, idx)
            && BlockAt(f, now, idx) == BlockAt(f, image, idx)
            && TablesAt(f, now, idx) == TablesAt(f, image, idx)
  {
    var idx := BlockIndex(f.bs, traversed + offset);
    PositionIsReached(f, image, offset, size, traversed + offset);
    if op.WriteFrom? {
      TablesSurvive(f, image, now, offset, size, offset, before[..traversed], idx);
    }
  }

  lemma ReadAdvances(f: FileMap, image: seq<byte>, offset: nat, size: nat, before: seq<byte>, buffer: seq<byte>,
                     traversed: nat, n: nat)
    requires |before| == |buffer| >= size && traversed + n <= size
    requires Progress(f, image, image, offset, size, ReadInto, before, buffer, traversed)
    requires SoundAt(f, image, BlockIndex(f.bs, offset + traversed))
              && Mapped(f, image, offset + traversed)
    requires (offset + traversed) % f.bs + n <= f.bs
    ensures var at := Addr(f, image, offset + traversed);
            && at + n <= |image|
            && Progress(f, image, image, offset, size, ReadInto, before,
                        Splice(buffer, traversed, image[at..at + n]), traversed + n)
  {
    MappedFurther(f, image, offset, traversed, n);
    ChunkIsFileBytes(f, image, offset + traversed, n);
  }

  lemma WriteAdvances(f: FileMap, image: seq<byte>, now: seq<byte>, now': seq<byte>, offset: nat, size: nat,
                      before: seq<byte>, traversed: nat, n: nat, c: Cache)
    requires |before| >= size && traversed + n <= size && n > 0
    requires Walkable(f, image, offset, size) && DataApart(f, image, offset, size)
    requires Progress(f, image, now, offset, size, WriteFrom, before, before, traversed)
    requires Mapped(f, image, offset + traversed)
    requires (offset + traversed) % f.bs + n <= f.bs
    requires Addr(f, image, offset + traversed) + n <= |image| == |now|
    requires now' == Splice(now, Addr(f, image, offset + traversed), before[traversed..traversed + n])
    requires CacheInv(f, image, now, offset, size, traversed, c)
    ensures Progress(f, image, now', offset, size, WriteFrom, before, before, traversed + n)
    ensures CacheInv(f, image, now', offset, size, traversed, c)
  {
    MappedFurther(f, image, offset, traversed, n);
    assert before[..traversed] + before[traversed..traversed + n] == before[..traversed + n];
    ChunkExtends(f, image, now, offset, before[..traversed], before[traversed..traversed + n]);
    CacheSurvives(f, image, now, now', offset, size, before[..traversed], before[..traversed + n], c);
  }

  /** The block that holds file block `idx`, from the inode or through the tables. */
  method Resolve(f: FileMap, part: Partition, idx: nat, c0: Cache, junk: seq<byte>)
    returns (c: Cache, block: nat)
    requires ValidBlockSize(f.bs)
    requires SoundAt(f, part.image, idx)
    requires CacheOk(part.image, f.bs, f.node, c0) && Ordered(f.rev, f.bs, c0, idx)
    modifies part
    ensures part.image == old(part.image)
    ensures block == BlockAt(f, part.image, idx)
    ensures Ordered(f.rev, f.bs, c, idx)
    ensures ReadyToFlush(part.image, f.bs, f.node, c, junk)
    ensures Spills(c, f.node, junk) <==> f.rev.AsShipped? && idx >= DIRECT_COUNT && Start(f, idx) == 0
    ensures block != 0 ==> CacheOk(part.image, f.bs, f.node, c)
    ensures block != 0 ==> c.Tags(f.node) <= c0.Tags(f.node) + TablesAt(f, part.image, idx)
  {
    if idx < DIRECT_COUNT {
      c, block := c0, f.node.dbp[idx];
    } else {
      c, block := ResolveIndirect(f, part, idx, c0, junk);
    }
  }

  lemma CacheMoves(f: FileMap, image: seq<byte>, now: seq<byte>, offset: nat, size: nat, traversed: nat, n: nat,
                   c: Cache)
    requires CacheInv(f, image, now, offset, size, traversed, c)
    ensures CacheInv(f, image, now, offset, size, traversed + n, c)
  {
    DivMonotone(traversed + offset, traversed + n + offset, f.bs);
    OrderedLater(f.rev, f.bs, c, BlockIndex(f.bs, traversed + offset), BlockIndex(f.bs, traversed + n + offset));
  }

  /** The part of one pass that moves data, when it reads ... */
  method ReadChunk(f: FileMap, ghost before: seq<byte>, part: Partition, offset: nat, size: nat, buffer: array<byte>,
                   traversed: nat, block: nat)
    returns (n: nat)
    requires |before| == buffer.Length >= size && traversed < size
    requires Progress(f, part.image, part.image, offset, size, ReadInto, before, buffer[..], traversed)
    requires SoundAt(f, part.image, BlockIndex(f.bs, traversed + offset))
    requires block == BlockAt(f, part.image, BlockIndex(f.bs, traversed + offset)) != 0
    modifies part, buffer
    ensures n > 0 && traversed + n <= size && part.image == old(part.image)
    ensures Progress(f, part.image, part.image, offset, size, ReadInto, before, buffer[..], traversed + n)
  {
    hide *;
    var jank := (traversed + offset) - BlockIndex(f.bs, traversed + offset) * f.bs;
    ChunkPlace(f, part.image, offset, size, traversed, block, jank);
    ReadAdvances(f, part.image, offset, size, before, buffer[..], traversed, Min(f.bs - jank, size - traversed));
    n := Transfer(ReadInto, part, f.bs, block, traversed, jank, buffer, size);
  }

  /** ... and when it writes. */
  method WriteChunk(f: FileMap, ghost image: seq<byte>, part: Partition, offset: nat, size: nat, buffer: array<byte>,
                    traversed: nat, block: nat, ghost c: Cache)
    returns (n: nat)
    requires buffer.Length >= size && traversed < size
    requires Walkable(f, image, offset, size) && DataApart(f, image, offset, size)
    requires Progress(f, image, part.image, offset, size, WriteFrom, buffer[..], buffer[..], traversed)
    requires SoundAt(f, image, BlockIndex(f.bs, traversed + offset))
    requires block == BlockAt(f, image, BlockIndex(f.bs, traversed + offset)) != 0
    requires CacheInv(f, image, part.image, offset, size, traversed, c)
    modifies part, buffer
    ensures n > 0 && traversed + n <= size && buffer[..] == old(buffer[..]) && |part.image| == |old(part.image)|
    ensures Progress(f, image, part.image, offset, size, WriteFrom, buffer[..], buffer[..], traversed + n)
    ensures CacheInv(f, image, part.image, offset, size, traversed, c)
  {
    hide *;
    var jank := (traversed + offset) - BlockIndex(f.bs, traversed + offset) * f.bs;
    ghost var now, before := part.image, buffer[..];
    ChunkPlace(f, image, offset, size, traversed, block, jank);
    WriteKeepsBuffer(f, image, now, offset, size, before, before, traversed);
    n := Transfer(WriteFrom, part, f.bs, block, traversed, jank, buffer, size);
    WriteAdvances(f, image, now, part.image, offset, size, before, traversed, n, c);
  }

  lemma ChunkPlace(f: FileMap, image: seq<byte>, offset: nat, size: nat, traversed: nat, block: nat, jank: int)
    requires traversed < size && SoundAt(f, image, BlockIndex(f.bs, traversed + offset))
    requires block == BlockAt(f, image, BlockIndex(f.bs, traversed + offset)) != 0
    requires jank == (traversed + offset) - BlockIndex(f.bs, traversed + offset) * f.bs
    ensures 0 <= jank == (offset + traversed) % f.bs < f.bs
    ensures Mapped(f, image, offset + traversed)
    ensures Addr(f, image, offset + traversed) == block * f.bs + jank
    ensures block * f.bs + f.bs <= |image|
    ensures var n := Min(f.bs - jank, size - traversed); 0 < n && traversed + n <= size && jank + n <= f.bs
  {
    assert jank == (offset + traversed) % f.bs;
    AddrInImage(f, image, offset + traversed);
  }

  /** One pass of the loop; `n == 0` when the block is not there. */
  method Pass(f: FileMap, ghost image: seq<byte>, ghost before: seq<byte>, part: Partition, offset: nat, size: nat,
              op: Callback, buffer: array<byte>, traversed: nat, c0: Cache, junk: seq<byte>)
    returns (c: Cache, n: nat)
    requires ValidBlockSize(f.bs) && |before| == buffer.Length >= size && traversed < size
    requires Walkable(f, image, offset, size)
    requires op.WriteFrom? ==> DataApart(f, image, offset, size)
    requires Progress(f, image, part.image, offset, size, op, before, buffer[..], traversed)
    requires CacheInv(f, image, part.image, offset, size, traversed, c0)
    modifies part, buffer
    ensures |part.image| == |old(part.image)| && traversed + n <= size
    ensures Progress(f, image, part.image, offset, size, op, before, buffer[..], traversed + n)
    ensures n > 0 ==> CacheInv(f, image, part.image, offset, size, traversed + n, c)
    ensures n == 0 ==> Left(f, image, part.image, offset, size, traversed, c, junk)
  {
    hide *;
    CacheFacts(f, image, part.image, offset, size, traversed, c0);
    MapSurvives(f, image, part.image, offset, size, op, before, buffer[..], traversed);
    var idx := BlockIndex(f.bs, traversed + offset);
    var block;
    c, block := Resolve(f, part, idx, c0, junk);
    if block == 0 {
      LeavesHere(f, image, part.image, offset, size, traversed, c, junk);
      return c, 0;
    }
    CacheGrows(f, image, part.image, offset, size, traversed, c0, c);
    match op {
      case ReadInto =>
        ReadKeepsImage(f, image, part.image, offset, size, before, buffer[..], traversed);
        n := ReadChunk(f, before, part, offset, size, buffer, traversed, block);
      case WriteFrom =>
        WriteKeepsBuffer(f, image, part.image, offset, size, before, buffer[..], traversed);
        n := WriteChunk(f, image, part, offset, size, buffer, traversed, block, c);
    }
    CacheMoves(f, image, part.image, offset, size, traversed, n, c);
  }

  lemma CacheFacts(f: FileMap, image: seq<byte>, now: seq<byte>, offset: nat, size: nat, traversed: nat, c: Cache)
    requires CacheInv(f, image, now, offset, size, traversed, c)
    ensures CacheOk(now, f.bs, f.node, c) && Ordered(f.rev, f.bs, c, BlockIndex(f.bs, traversed + offset))
  {}

  lemma CacheGrows(f: FileMap, image: seq<byte>, now: seq<byte>, offset: nat, size: nat, traversed: nat, c0: Cache,
                   c: Cache)
    requires Reached(f, image, offset, size, BlockIndex(f.bs, traversed + offset))
    requires CacheInv(f, image, now, offset, size, traversed, c0)
    requires CacheOk(now, f.bs, f.node, c) && Ordered(f.rev, f.bs, c, BlockIndex(f.bs, traversed + offset))
    requires TablesAt(f, now, BlockIndex(f.bs, traversed + offset))
              == TablesAt(f, image, BlockIndex(f.bs, traversed + offset))
    requires c.Tags(f.node) <= c0.Tags(f.node) + TablesAt(f, now, BlockIndex(f.bs, traversed + offset))
    ensures CacheInv(f, image, now, offset, size, traversed, c)
  {}

  lemma LeavesHere(f: FileMap, image: seq<byte>, now: seq<byte>, offset: nat, size: nat, traversed: nat, c: Cache,
                   junk: seq<byte>)
    requires traversed < size && ReadyToFlush(now, f.bs, f.node, c, junk)
    requires BlockAt(f, image, BlockIndex(f.bs, traversed + offset)) == 0
    requires var idx := BlockIndex(f.bs, traversed + offset);
             Spills(c, f.node, junk) <==> f.rev.AsShipped? && idx >= DIRECT_COUNT && Start(f, idx) == 0
    ensures Left(f, image, now, offset, size, traversed, c, junk)
  {}

  lemma ReadKeepsImage(f: FileMap, image: seq<byte>, now: seq<byte>, offset: nat, size: nat, before: seq<byte>,
                       buffer: seq<byte>, traversed: nat)
    requires |before| == |buffer| >= size
    requires Progress(f, image, now, offset, size, ReadInto, before, buffer, traversed)
    ensures now == image
  {}

  lemma WriteKeepsBuffer(f: FileMap, image: seq<byte>, now: seq<byte>, offset: nat, size: nat, before: seq<byte>,
                         buffer: seq<byte>, traversed: nat)
    requires |before| == |buffer| >= size
    requires Progress(f, image, now, offset, size, WriteFrom, before, buffer, traversed)
    ensures buffer == before && |now| == |image|
  {}

  lemma WalkStarts(f: FileMap, image: seq<byte>, offset: nat, size: nat, op: Callback, buffer: seq<byte>)
    requires |buffer| >= size
    ensures Progress(f, image, image, offset, size, op, buffer, buffer, 0)
    ensures CacheInv(f, image, image, offset, size, 0, Cache(Null, 0, Null, 0, Null))
  {
    assert FileBytes(f, image, offset, 0) == [];
  }

  /** What the walk has done when it leaves the loop and has flushed its tables. */
  ghost predicate Outcome(f: FileMap, image: seq<byte>, image': seq<byte>, offset: nat, size: nat, op: Callback,
                          before: seq<byte>, buffer: seq<byte>, n: nat, junk: seq<byte>)
    requires |before| == |buffer| >= size && |junk| <= |image|
  {
    var spills := f.rev.AsShipped? && RootMissing(f, offset, size, n);
    && IsExtent(f, image, offset, size, n)
    && match op
       case ReadInto =>
         && buffer == FileBytes(f, image, offset, n) + before[n..]
         && image' == Spilt(image, spills, junk)
       case WriteFrom =>
         && buffer == before
         && OverwrittenThenSpilt(f, image, image', offset, before[..n], spills, junk)
  }

  /** The loop is left because the range is done, or because its next block is missing. */
  ghost predicate Left(f: FileMap, image: seq<byte>, now: seq<byte>, offset: nat, size: nat, traversed: nat, c: Cache,
                       junk: seq<byte>)
  {
    && ReadyToFlush(now, f.bs, f.node, c, junk)
    && (traversed < size ==> !Mapped(f, image, offset + traversed))
    && (Spills(c, f.node, junk) <==> f.rev.AsShipped? && RootMissing(f, offset, size, traversed))
  }

  lemma WalkRunsOut(f: FileMap, image: seq<byte>, now: seq<byte>, offset: nat, size: nat, c: Cache, junk: seq<byte>)
    requires CacheInv(f, image, now, offset, size, size, c)
    ensures Left(f, image, now, offset, size, size, c, junk)
  {}

  lemma WalkEnds(f: FileMap, image: seq<byte>, now: seq<byte>, offset: nat, size: nat, op: Callback,
                 before: seq<byte>, buffer: seq<byte>, n: nat, c: Cache, junk: seq<byte>)
    requires |before| == |buffer| >= size && |junk| <= |image| == |now|
    requires Progress(f, image, now, offset, size, op, before, buffer, n)
    requires Left(f, image, now, offset, size, n, c, junk)
    ensures Outcome(f, image, Spilt(now, Spills(c, f.node, junk), junk), offset, size, op, before, buffer, n, junk)
    ensures ReadyToFlush(now, f.bs, f.node, c, junk)
  {}

  /** `ext2_traverse_blocks`, as called by the read and the write of inode data.  `junk` is what a newly allocated
      table buffer happens to hold. */
  method Traverse(f: FileMap, part: Partition, offset: nat, size: nat, op: Callback, buffer: array<byte>,
                  junk: seq<byte>)
    returns (traversed: nat)
    requires ValidBlockSize(f.bs) && |junk| == f.bs <= |part.image| && size <= buffer.Length
    requires Walkable(f, part.image, offset, size)
    requires op.WriteFrom? ==> DataApart(f, part.image, offset, size)
    modifies part, buffer
    ensures Outcome(f, old(part.image), part.image, offset, size, op, old(buffer[..]), buffer[..], traversed, junk)
  {
    hide *;
    ghost var image, before := part.image, buffer[..];
    traversed := 0;
    var cache := Cache(Null, 0, Null, 0, Null);
    WalkStarts(f, image, offset, size, op, before);
    while traversed < size
      invariant |part.image| == |image| && traversed <= size
      invariant Progress(f, image, part.image, offset, size, op, before, buffer[..], traversed)
      invariant CacheInv(f, image, part.image, offset, size, traversed, cache)
    {
      var n;
      cache, n := Pass(f, image, before, part, offset, size, op, buffer, traversed, cache, junk);
      if n == 0 {
        break;
      }
      traversed := traversed + n;
    }
    if traversed == size {
      WalkRunsOut(f, image, part.image, offset, size, cache, junk);
    }
    WalkEnds(f, image, part.image, offset, size, op, before, buffer[..], traversed, cache, junk);
    Flush(part, f.bs, f.node, cache, junk);
  }
}
