// Where the bytes of a file lie, said in terms of the inode's pointers and the words of the disk alone: region by
// region, without the paths and tables that the walk is modelled by.

module Ext2Places {
  import opened Bytes
  import opened Revisions
  import opened Ext2Layout
  import opened Ext2Blocks
  import opened Ext2Traverse

  /** The 32-bit number that the disk holds at byte `at`. */
  function Word(image: seq<byte>, at: nat): nat
    requires at + 4 <= |image|
  {
    image[at] as nat + 0x100 * image[at + 1] as nat
    + 0x1_0000 * image[at + 2] as nat + 0x100_0000 * image[at + 3] as nat
  }

  /** Byte `p` of the file is byte `p % block_size` of block `b`, or is unmapped if `b` is 0. */
  ghost predicate LiesIn(f: FileMap, image: seq<byte>, p: nat, b: nat) {
    && (b == 0 ==> !Mapped(f, image, p))
    && (b != 0 ==>
          && Mapped(f, image, p)
          && 0 <= b * f.bs + p % f.bs < |image|
          && ByteAt(f, image, p) == image[b * f.bs + p % f.bs])
  }

  lemma BlockLiesIn(f: FileMap, image: seq<byte>, p: nat)
    requires SoundAt(f, image, BlockIndex(f.bs, p))
    ensures LiesIn(f, image, p, BlockAt(f, image, BlockIndex(f.bs, p)))
  {
    if Mapped(f, image, p) {
      AddrInImage(f, image, p);
    }
  }

  lemma EntryIsWord(image: seq<byte>, bs: nat, table: nat, k: nat)
    requires InImage(image, bs, table) && 4 * k + 4 <= bs
    ensures 0 <= table * bs + 4 * k && table * bs + 4 * k + 4 <= |image|
    ensures TableEntry(BlockBytes(image, bs, table), k) == Word(image, table * bs + 4 * k)
  {
    ProductOfNats(table, bs);
    assert (table + 1) * bs == table * bs + bs;
  }

  /** One table further: entry `k` of table `t` is a word of the disk. */
  lemma NextTable(image: seq<byte>, bs: nat, t: nat, k: nat, rest: seq<nat>)
    requires t != 0 && Sound(image, bs, t, [k] + rest)
    ensures 0 <= t * bs + 4 * k && t * bs + 4 * k + 4 <= |image|
    ensures Sound(image, bs, Word(image, t * bs + 4 * k), rest)
    ensures Follow(image, bs, t, [k] + rest) == Follow(image, bs, Word(image, t * bs + 4 * k), rest)
  {
    FollowOneStep(image, bs, t, k, rest);
    EntryIsWord(image, bs, t, k);
  }

  /** Byte `p` of the file is `v`, as far as its direct pointers say where that is. */
  ghost predicate DirectByteIs(bs: nat, node: Inode, image: seq<byte>, p: nat, v: byte)
    requires bs > 0
  {
    0 <= p / bs < 12 ==>
      && node.dbp[p / bs] != 0
      && 0 <= node.dbp[p / bs] * bs + p % bs < |image|
      && image[node.dbp[p / bs] * bs + p % bs] == v
  }

  ghost predicate DirectBytesAre(bs: nat, node: Inode, image: seq<byte>, offset: nat, data: seq<byte>)
    requires bs > 0
  {
    forall i: nat | i < |data| :: DirectByteIs(bs, node, image, offset + i, data[i])
  }

  /** Byte `p` of the file is not in a direct block. */
  ghost predicate NoDirectByte(bs: nat, node: Inode, p: nat)
    requires bs > 0
  {
    0 <= p / bs < 12 ==> node.dbp[p / bs] == 0
  }

  /** The twelve direct blocks, whatever the divisors and whatever else the inode holds. */
  lemma DirectBytes(f: FileMap, image: seq<byte>, p: nat)
    requires 0 <= p / f.bs < 12
    ensures f.node.dbp[p / f.bs] == 0 ==> !Mapped(f, image, p)
    ensures f.node.dbp[p / f.bs] != 0 && (f.node.dbp[p / f.bs] + 1) * f.bs <= |image| ==>
              LiesIn(f, image, p, f.node.dbp[p / f.bs])
  {
    assert Split(f.rev, f.bs, BlockIndex(f.bs, p)) == Path(Direct(p / f.bs), []);
    if SoundAt(f, image, BlockIndex(f.bs, p)) {
      BlockLiesIn(f, image, p);
    }
  }

  /** The `ptrs` blocks behind them, below the singly indirect table. */
  lemma SinglyBytes(f: FileMap, image: seq<byte>, p: nat, c: nat)
    requires ValidBlockSize(f.bs) && c < f.bs / 4 && p / f.bs == 12 + c && SoundAt(f, image, 12 + c)
    ensures f.node.sibp == 0 ==> !Mapped(f, image, p)
    ensures f.node.sibp != 0 ==>
              && 0 <= f.node.sibp * f.bs + 4 * c && f.node.sibp * f.bs + 4 * c + 4 <= |image|
              && LiesIn(f, image, p, Word(image, f.node.sibp * f.bs + 4 * c))
  {
    BlockLiesIn(f, image, p);
    LayoutIs(f.bs / 4, 0, 0, c);
    LowSplit(f, c);
    hide *;
    PathOfBlock(f, image, 12 + c, f.node.sibp, [c]);
    if f.node.sibp != 0 {
      assert [c] + [] == [c];
      NextTable(image, f.bs, f.node.sibp, c, []);
      FollowEmpty(image, f.bs, Word(image, f.node.sibp * f.bs + 4 * c));
    }
  }

  lemma LowSplit(f: FileMap, c: nat)
    requires ValidBlockSize(f.bs) && c < f.bs / 4
    ensures Split(f.rev, f.bs, 12 + c) == Path(Single, [c])
  {
    DivisorsAgreeBelow(f.bs, 12 + c);
    DivModIs(c, f.bs / 4, 0, c);
  }

  /** Byte `p` of the file lies in the block that entry `c` of table `t` names, or is unmapped if there is none ... */
  ghost predicate LiesBelow(f: FileMap, image: seq<byte>, p: nat, t: nat, c: nat) {
    if t == 0 then !Mapped(f, image, p)
    else
      && 0 <= t * f.bs + 4 * c && t * f.bs + 4 * c + 4 <= |image|
      && LiesIn(f, image, p, Word(image, t * f.bs + 4 * c))
  }

  /** ... or in the one that entry `c` of the table names that entry `b` of table `t` names. */
  ghost predicate LiesTwoBelow(f: FileMap, image: seq<byte>, p: nat, t: nat, b: nat, c: nat) {
    if t == 0 then !Mapped(f, image, p)
    else
      && 0 <= t * f.bs + 4 * b && t * f.bs + 4 * b + 4 <= |image|
      && LiesBelow(f, image, p, Word(image, t * f.bs + 4 * b), c)
  }

  lemma BelowTable(f: FileMap, image: seq<byte>, p: nat, t: nat, c: nat)
    requires Sound(image, f.bs, t, [c]) && LiesIn(f, image, p, Follow(image, f.bs, t, [c]))
    ensures LiesBelow(f, image, p, t, c)
  {
    assert [c] + [] == [c];
    if t != 0 {
      NextTable(image, f.bs, t, c, []);
    }
  }

  lemma TwoBelowTable(f: FileMap, image: seq<byte>, p: nat, t: nat, b: nat, c: nat)
    requires Sound(image, f.bs, t, [b, c]) && LiesIn(f, image, p, Follow(image, f.bs, t, [b, c]))
    ensures LiesTwoBelow(f, image, p, t, b, c)
  {
    assert [b] + [c] == [b, c];
    if t != 0 {
      NextTable(image, f.bs, t, b, [c]);
      BelowTable(f, image, p, Word(image, t * f.bs + 4 * b), c);
    }
  }

  /** The `ptrs * ptrs` blocks behind those, below the doubly indirect table. */
  lemma DoublyBytes(f: FileMap, image: seq<byte>, p: nat, ptrs: nat, b: nat, c: nat)
    requires ValidBlockSize(f.bs) && f.rev.Repaired? && ptrs == f.bs / 4 && b < ptrs && c < ptrs
    requires BlockIndex(f.bs, p) == 12 + ptrs + b * ptrs + c && SoundAt(f, image, BlockIndex(f.bs, p))
    ensures LiesTwoBelow(f, image, p, f.node.dibp, b, c)
  {
    LayoutIs(ptrs, 0, b, c);
    BelowCapacity(ptrs, 0, b, c);
    StartsAt(f, image, p, Path(Double, [b, c]));
    hide *;
    TwoBelowTable(f, image, p, f.node.dibp, b, c);
  }

  /** The `ptrs * ptrs * ptrs` blocks behind those, below the triply indirect table. */
  lemma TriplyBytes(f: FileMap, image: seq<byte>, p: nat, ptrs: nat, a: nat, b: nat, c: nat)
    requires ValidBlockSize(f.bs) && f.rev.Repaired? && ptrs == f.bs / 4 && a < ptrs && b < ptrs && c < ptrs
    requires BlockIndex(f.bs, p) == 12 + ptrs + ptrs * ptrs + (a * ptrs + b) * ptrs + c
    requires SoundAt(f, image, BlockIndex(f.bs, p))
    ensures f.node.tibp == 0 ==> !Mapped(f, image, p)
    ensures f.node.tibp != 0 ==>
              && 0 <= f.node.tibp * f.bs + 4 * a && f.node.tibp * f.bs + 4 * a + 4 <= |image|
              && LiesTwoBelow(f, image, p, Word(image, f.node.tibp * f.bs + 4 * a), b, c)
  {
    LayoutIs(ptrs, a, b, c);
    BelowCapacity(ptrs, a, b, c);
    StartsAt(f, image, p, Path(Triple, [a, b, c]));
    hide *;
    ThreeBelowTable(f, image, p, f.node.tibp, a, b, c);
  }

  lemma ThreeBelowTable(f: FileMap, image: seq<byte>, p: nat, t: nat, a: nat, b: nat, c: nat)
    requires Sound(image, f.bs, t, [a, b, c]) && LiesIn(f, image, p, Follow(image, f.bs, t, [a, b, c]))
    ensures t == 0 ==> !Mapped(f, image, p)
    ensures t != 0 ==>
              && 0 <= t * f.bs + 4 * a && t * f.bs + 4 * a + 4 <= |image|
              && LiesTwoBelow(f, image, p, Word(image, t * f.bs + 4 * a), b, c)
  {
    assert [a] + [b, c] == [a, b, c];
    if t != 0 {
      NextTable(image, f.bs, t, a, [b, c]);
      TwoBelowTable(f, image, p, Word(image, t * f.bs + 4 * a), b, c);
    }
  }

  /** The pointer that the layout's path starts from. */
  lemma StartsAt(f: FileMap, image: seq<byte>, p: nat, path: Path)
    requires ValidBlockSize(f.bs) && f.rev.Repaired? && BlockIndex(f.bs, p) < Capacity(f.bs / 4)
    requires LayoutPath(f.bs / 4, BlockIndex(f.bs, p)) == path && (path.root.Double? || path.root.Triple?)
    requires SoundAt(f, image, BlockIndex(f.bs, p))
    ensures var ptr := if path.root.Double? then f.node.dibp else f.node.tibp;
            Sound(image, f.bs, ptr, path.steps) && LiesIn(f, image, p, Follow(image, f.bs, ptr, path.steps))
  {
    hide LayoutPath, Capacity, BlockIndex, LiesIn, Sound, Follow;
    RepairedSplitIsLayout(f.bs, BlockIndex(f.bs, p));
    BlockLiesIn(f, image, p);
  }

  lemma FollowEmpty(image: seq<byte>, bs: nat, t: nat)
    requires Sound(image, bs, t, [])
    ensures Follow(image, bs, t, []) == t
  {}

  /** The block map in terms of the pointer that the walk starts from. */
  lemma PathOfBlock(f: FileMap, image: seq<byte>, idx: nat, ptr: nat, steps: seq<nat>)
    requires SoundAt(f, image, idx) && Split(f.rev, f.bs, idx).steps == steps && Start(f, idx) == ptr
    ensures Sound(image, f.bs, ptr, steps) && BlockAt(f, image, idx) == Follow(image, f.bs, ptr, steps)
    ensures ptr == 0 ==> BlockAt(f, image, idx) == 0
  {}

  lemma BelowCapacity(ptrs: nat, a: nat, b: nat, c: nat)
    requires a < ptrs && b < ptrs && c < ptrs
    ensures 12 + ptrs + b * ptrs + c < Capacity(ptrs)
    ensures 12 + ptrs + ptrs * ptrs + (a * ptrs + b) * ptrs + c < Capacity(ptrs)
  {
    JoinsTo(ptrs, a, b, c);
    JoinSplits(ptrs, Path(Double, [b, c]));
    JoinSplits(ptrs, Path(Triple, [a, b, c]));
  }
}
