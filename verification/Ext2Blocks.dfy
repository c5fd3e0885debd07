// Following block pointers through a disk image: which block holds file block `idx` of an inode, which tables are
// read on the way, and how far the index arithmetic as shipped can be trusted.

module Ext2Blocks {
  import opened Bytes
  import opened Revisions
  import opened Ext2Layout

  predicate InImage(image: seq<byte>, bs: nat, block: nat) {
    (block + 1) * bs <= |image|
  }

  function BlockBytes(image: seq<byte>, bs: nat, block: nat): (r: seq<byte>)
    requires InImage(image, bs, block)
    ensures |r| == bs
  {
    assert (block + 1) * bs == block * bs + bs;
    image[block * bs..block * bs + bs]
  }

  /** Entry `k` of a table of 32-bit pointers. */
  function TableEntry(table: seq<byte>, k: nat): nat
    requires 4 * k + 4 <= |table|
  {
    U32At(table, 4 * k)
  }

  function RootPointer(node: Inode, root: Root): nat
    requires root.Direct? ==> root.i < DIRECT_COUNT
  {
    match root
    case Direct(i) => node.dbp[i]
    case Single => node.sibp
    case Double => node.dibp
    case Triple => node.tibp
  }

  /** Every block on the way from `ptr` along `steps`, the last one included, lies in the image. */
  ghost predicate Sound(image: seq<byte>, bs: nat, ptr: nat, steps: seq<nat>)
    decreases |steps|
  {
    ptr != 0 ==>
      && InImage(image, bs, ptr)
      && (steps != [] ==> 4 * steps[0] + 4 <= bs && Sound(image, bs, TableEntry(BlockBytes(image, bs, ptr),
          steps[0]), steps[1..]))
  }

  /** The block that `steps` lead to from `ptr`, or 0 when a pointer on the way is 0. */
  ghost function Follow(image: seq<byte>, bs: nat, ptr: nat, steps: seq<nat>): nat
    requires Sound(image, bs, ptr, steps)
    decreases |steps|
  {
    if ptr == 0 || steps == [] then ptr
    else Follow(image, bs, TableEntry(BlockBytes(image, bs, ptr), steps[0]), steps[1..])
  }

  /** The pointer tables that are read on the way. */
  ghost function Tables(image: seq<byte>, bs: nat, ptr: nat, steps: seq<nat>): set<nat>
    requires Sound(image, bs, ptr, steps)
    decreases |steps|
  {
    if ptr == 0 || steps == [] then {}
    else {ptr} + Tables(image, bs, TableEntry(BlockBytes(image, bs, ptr), steps[0]), steps[1..])
  }

  /** What the block map of a file depends on besides the disk: divisors, block size and pointers. */
  datatype FileMapFields = FileMapOf(rev: Revision, bs: nat, node: Inode)
  type FileMap = f: FileMapFields | f.bs >= 4 witness FileMapOf(Repaired, 4, InodeFields(seq(12, _ => 0), 0, 0, 0))

  /** The pointer that the walk starts from for file block `idx`, its steps, and what they lead to. */
  function Start(f: FileMap, idx: nat): nat {
    RootPointer(f.node, Split(f.rev, f.bs, idx).root)
  }

  ghost predicate SoundAt(f: FileMap, image: seq<byte>, idx: nat) {
    Sound(image, f.bs, Start(f, idx), Split(f.rev, f.bs, idx).steps)
  }

  ghost function BlockAt(f: FileMap, image: seq<byte>, idx: nat): nat {
    if SoundAt(f, image, idx) then
      Follow(image, f.bs, Start(f, idx), Split(f.rev, f.bs, idx).steps)
    else 0
  }

  ghost function TablesAt(f: FileMap, image: seq<byte>, idx: nat): set<nat> {
    if SoundAt(f, image, idx) then
      Tables(image, f.bs, Start(f, idx), Split(f.rev, f.bs, idx).steps)
    else {}
  }

  /** The block that the ext2 layout gives file block `idx`. */
  ghost function LayoutBlock(image: seq<byte>, bs: nat, node: Inode, idx: nat): nat
    requires bs >= 4
    requires Sound(image, bs, RootPointer(node, RootOf(bs / 4, idx)), LayoutPath(bs / 4, idx).steps)
  {
    Follow(image, bs, RootPointer(node, RootOf(bs / 4, idx)), LayoutPath(bs / 4, idx).steps)
  }

  /** With the repaired divisors the walk finds the block that the layout names, for everything an inode can map. */
  lemma RepairedBlockIsLayoutBlock(image: seq<byte>, bs: nat, node: Inode, idx: nat)
    requires ValidBlockSize(bs) && idx < Capacity(bs / 4)
    ensures bs >= 4
    ensures SoundAt(FileMapOf(Repaired, bs, node), image, idx) <==>
              Sound(image, bs, RootPointer(node, RootOf(bs / 4, idx)), LayoutPath(bs / 4, idx).steps)
    ensures SoundAt(FileMapOf(Repaired, bs, node), image, idx) ==>
              BlockAt(FileMapOf(Repaired, bs, node), image, idx) == LayoutBlock(image, bs, node, idx)
  {
    BlockSizeFacts(bs);
    RepairedSplitIsLayout(bs, idx);
  }

  lemma FollowOneStep(image: seq<byte>, bs: nat, ptr: nat, k: nat, rest: seq<nat>)
    requires ptr != 0 && Sound(image, bs, ptr, [k] + rest)
    ensures InImage(image, bs, ptr) && 4 * k + 4 <= bs
    ensures var next := TableEntry(BlockBytes(image, bs, ptr), k);
            && Sound(image, bs, next, rest)
            && Follow(image, bs, ptr, [k] + rest) == Follow(image, bs, next, rest)
            && Tables(image, bs, ptr, [k] + rest) == {ptr} + Tables(image, bs, next, rest)
  {
    assert ([k] + rest)[1..] == rest;
  }

  lemma {:induction false} FollowInImage(image: seq<byte>, bs: nat, ptr: nat, steps: seq<nat>)
    requires Sound(image, bs, ptr, steps)
    ensures Follow(image, bs, ptr, steps) != 0 ==> InImage(image, bs, Follow(image, bs, ptr, steps))
    decreases |steps|
  {
    if ptr != 0 && steps != [] {
      FollowInImage(image, bs, TableEntry(BlockBytes(image, bs, ptr), steps[0]), steps[1..]);
    }
  }

  // ---------------------------------------------------------------- framing

  ghost predicate SameBlock(image: seq<byte>, image': seq<byte>, bs: nat, block: nat) {
    && |image| == |image'|
    && (InImage(image, bs, block) ==> BlockBytes(image, bs, block) == BlockBytes(image', bs, block))
  }

  /** A path is unaffected by a change of the image that leaves its tables alone. */
  lemma {:induction false} FollowFrame(image: seq<byte>, image': seq<byte>, bs: nat, ptr: nat, steps: seq<nat>)
    requires |image| == |image'| && Sound(image, bs, ptr, steps)
    requires forall t | t in Tables(image, bs, ptr, steps) :: SameBlock(image, image', bs, t)
    ensures Sound(image', bs, ptr, steps)
    ensures Follow(image', bs, ptr, steps) == Follow(image, bs, ptr, steps)
    ensures Tables(image', bs, ptr, steps) == Tables(image, bs, ptr, steps)
    decreases |steps|
  {
    if ptr != 0 && steps != [] {
      assert SameBlock(image, image', bs, ptr);
      FollowFrame(image, image', bs, TableEntry(BlockBytes(image, bs, ptr), steps[0]), steps[1..]);
    }
  }

  // ---------------------------------------------------------------- how far the shipped divisors go

  // A block of 0x01 bytes is a table that leads back to block 0x01010101, and so on for 0x02 bytes.
  const RIGHT: nat := 0x0101_0101
  const WRONG: nat := 0x0202_0202

  /** Block RIGHT is all ones, block WRONG all twos; block 1 leads to RIGHT but for one entry, which leads to WRONG. */
  function TellTaleByte(hole: int, block: int, at: int): byte {
    if block == WRONG || (block == 1 && at / 4 == hole) then 2 else 1
  }

  function TellTale(bs: nat, hole: int): (image: seq<byte>)
    requires bs > 0
    ensures |image| == (WRONG + 1) * bs
  {
    seq<byte>((WRONG + 1) * bs, i requires 0 <= i => TellTaleByte(hole, i / bs, i % bs))
  }

  function TellTaleEntry(hole: int, block: int, k: int): nat {
    if block == WRONG || (block == 1 && k == hole) then WRONG else RIGHT
  }

  lemma TellTaleBlock(bs: nat, hole: int, block: nat)
    requires bs > 0 && block <= WRONG
    ensures InImage(TellTale(bs, hole), bs, block)
    ensures forall at | 0 <= at < bs :: BlockBytes(TellTale(bs, hole), bs, block)[at] == TellTaleByte(hole, block, at)
  {
    MultipleGrows(block + 1, WRONG + 1, bs);
    assert (block + 1) * bs == block * bs + bs;
    var image, table := TellTale(bs, hole), BlockBytes(TellTale(bs, hole), bs, block);
    forall at | 0 <= at < bs
      ensures table[at] == TellTaleByte(hole, block, at)
    {
      DivModIs(block * bs + at, bs, block, at);
      assert table[at] == image[block * bs + at];
    }
  }

  lemma TellTaleTable(bs: nat, hole: int, block: nat, k: nat)
    requires bs > 0 && block <= WRONG && 4 * k + 4 <= bs
    ensures InImage(TellTale(bs, hole), bs, block)
    ensures TableEntry(BlockBytes(TellTale(bs, hole), bs, block), k) == TellTaleEntry(hole, block, k)
  {
    TellTaleBlock(bs, hole, block);
  }

  lemma {:induction false} TellTaleFollow(bs: nat, hole: int, ptr: nat, steps: seq<nat>)
    requires bs > 0 && (ptr == 1 || ptr == RIGHT || ptr == WRONG)
    requires forall j | 0 <= j < |steps| :: 4 * steps[j] + 4 <= bs
    ensures Sound(TellTale(bs, hole), bs, ptr, steps)
    ensures Follow(TellTale(bs, hole), bs, ptr, steps)
         == if ptr == 1 && steps != [] then (if steps[0] == hole then WRONG else RIGHT) else ptr
    decreases |steps|
  {
    TellTaleBlock(bs, hole, ptr);
    if steps != [] {
      TellTaleTable(bs, hole, ptr, steps[0]);
      TellTaleFollow(bs, hole, TableEntry(BlockBytes(TellTale(bs, hole), bs, ptr), steps[0]), steps[1..]);
    }
  }

  lemma DivisorsAgreeBelow(bs: nat, idx: nat)
    requires ValidBlockSize(bs) && DIRECT_COUNT <= idx
    ensures bs >= 4 && (idx < DIRECT_COUNT + bs / 4 ==> Doubly(AsShipped, bs, idx) == Doubly(Repaired, bs, idx) == 0)
    ensures 4 * Doubly(AsShipped, bs, idx) <= Doubly(Repaired, bs, idx) < 4 * Doubly(AsShipped, bs, idx) + 4
    ensures idx >= DIRECT_COUNT + bs / 4 ==> Doubly(Repaired, bs, idx) >= 1
  {
    BlockSizeFacts(bs);
    QuotientsAgree(idx - DIRECT_COUNT, bs / 4);
    assert 4 * (bs / 4) == bs;
  }

  lemma QuotientsAgree(raw: nat, ptrs: nat)
    requires ptrs > 0
    ensures raw < ptrs ==> raw / (4 * ptrs) == raw / ptrs == 0
    ensures 4 * (raw / (4 * ptrs)) <= raw / ptrs < 4 * (raw / (4 * ptrs)) + 4
    ensures raw >= ptrs ==> raw / ptrs >= 1
  {
    var d := raw / (4 * ptrs);
    DivBelow(raw, ptrs, 1);
    DivBelow(raw, 4 * ptrs, 1);
    DivModSplit(raw, 4 * ptrs);
    FourRows(d, ptrs);
    DivBelow(raw, ptrs, 4 * d);
    DivBelow(raw, ptrs, 4 * d + 4);
  }

  lemma FourRows(d: int, ptrs: int)
    ensures (4 * d) * ptrs == d * (4 * ptrs)
    ensures (4 * d + 4) * ptrs == d * (4 * ptrs) + 4 * ptrs
  {}

  /** The first table entry taken in the triply indirect region, for either set of divisors. */
  lemma TripleEntry(bs: nat, t: nat)
    requires ValidBlockSize(bs) && t <= bs / 4
    ensures bs / 4 > 0
    ensures (t - 1) % TWO_TO_THE_64 % (bs / 4) == if t == 0 then bs / 4 - 1 else t - 1
  {
    BlockSizeFacts(bs);
    assert TWO_TO_THE_64 > 0;
    hide *;
    if t == 0 {
      WrappedMinusOne(bs / 4);
    } else {
      DivModIs(TWO_TO_THE_64, bs / 4, TWO_TO_THE_64 / (bs / 4), 0);
      MultipleIsLarge(TWO_TO_THE_64 / (bs / 4), bs / 4);
      DivModIs(t - 1, TWO_TO_THE_64, 0, t - 1);
      DivModIs(t - 1, bs / 4, 0, t - 1);
    }
  }

  lemma WrappedMinusOne(ptrs: nat)
    requires ptrs > 0 && TWO_TO_THE_64 % ptrs == 0
    ensures -1 % TWO_TO_THE_64 % ptrs == ptrs - 1
  {
    var m := TWO_TO_THE_64 / ptrs;
    assert (m - 1) * ptrs == m * ptrs - ptrs;
    assert -1 % TWO_TO_THE_64 == TWO_TO_THE_64 - 1;
    DivModIs(TWO_TO_THE_64 - 1, ptrs, m - 1, ptrs - 1);
  }

  /** Past the first `12 + ptrs` blocks, the shipped arithmetic takes a root below the right one, or the right root
      and a wrong first entry. */
  lemma ShippedSplitStrays(bs: nat, idx: nat)
    requires ValidBlockSize(bs) && DIRECT_COUNT + bs / 4 <= idx < Capacity(bs / 4)
    ensures bs >= 4
    ensures var wrong, right := Split(AsShipped, bs, idx), Split(Repaired, bs, idx);
            && (right.root.Double? || right.root.Triple?)
            && (|| wrong.root.Single?
                || (wrong.root.Double? && right.root.Triple?)
                || (wrong.root == right.root && wrong.steps[0] != right.steps[0]))
  {
    BlockSizeFacts(bs);
    DivisorsAgreeBelow(bs, idx);
    var ptrs := bs / 4;
    var wrong, right := Doubly(AsShipped, bs, idx), Doubly(Repaired, bs, idx);
    if 1 <= wrong && right <= ptrs {
      DivModIs(wrong - 1, ptrs, 0, wrong - 1);
      DivModIs(right - 1, ptrs, 0, right - 1);
    } else if wrong > ptrs {
      RowsOfTriples(ptrs, idx, right);
      assert 4 * ptrs == bs;
      StrayingTriples(ptrs, wrong, right);
      TripleEntry(bs, Triply(Repaired, bs, idx));
      TripleEntry(bs, Triply(AsShipped, bs, idx));
    }
  }

  lemma RowsOfTriples(ptrs: nat, idx: nat, right: nat)
    requires 0 < ptrs && DIRECT_COUNT <= idx < Capacity(ptrs) && right == (idx - DIRECT_COUNT) / ptrs >= 1
    ensures right < ptrs * ptrs + ptrs + 1
    ensures (right - 1) / ptrs <= ptrs
  {
    SpansAre(ptrs);
    RowsBelowCapacity(ptrs, idx - DIRECT_COUNT);
    DivBelow(right - 1, ptrs, ptrs + 1);
    assert (ptrs + 1) * ptrs == ptrs * ptrs + ptrs;
  }

  lemma StrayingTriples(ptrs: nat, wrong: nat, right: nat)
    requires ptrs >= 256 && wrong > ptrs && 4 * wrong <= right < 4 * wrong + 4
    requires right < ptrs * ptrs + ptrs + 1
    ensures wrong / (4 * ptrs) < (right - 1) / ptrs
    ensures wrong / (4 * ptrs) == 0 ==> (right - 1) / ptrs <= 16
  {
    var q := wrong / (4 * ptrs);
    DivModSplit(wrong, 4 * ptrs);
    FourRows(q, ptrs);
    MultipleIsLarge(q, ptrs);
    DivBelow(right - 1, ptrs, q + 1);
    RowAfter(q, ptrs);
    DivBelow(right - 1, ptrs, 17);
  }

  lemma RowAfter(q: int, ptrs: int)
    ensures (q + 1) * ptrs == q * ptrs + ptrs
    ensures q == 0 ==> q * ptrs == 0 && q * (4 * ptrs) == 0
    ensures (4 * q) * ptrs == 4 * (q * ptrs)
  {}

  /** A disk on which the shipped walk takes the wrong block for `idx`: every index is mapped by either set of
      divisors, the layout's block for `idx` is all ones, and the one that the walk takes is all twos. */
  lemma ShippedTakesWrongBlock(bs: nat, idx: nat) returns (image: seq<byte>, node: Inode)
    requires ValidBlockSize(bs) && DIRECT_COUNT + bs / 4 <= idx < Capacity(bs / 4)
    ensures bs >= 4
    ensures forall rev, i: nat ::
              SoundAt(FileMapOf(rev, bs, node), image, i) && BlockAt(FileMapOf(rev, bs, node), image, i) != 0
    ensures BlockAt(FileMapOf(Repaired, bs, node), image, idx) == RIGHT
    ensures BlockAt(FileMapOf(AsShipped, bs, node), image, idx) == WRONG
    ensures InImage(image, bs, RIGHT) && forall at | 0 <= at < bs :: BlockBytes(image, bs, RIGHT)[at] == 1
    ensures InImage(image, bs, WRONG) && forall at | 0 <= at < bs :: BlockBytes(image, bs, WRONG)[at] == 2
  {
    ShippedSplitStrays(bs, idx);
    var wrong, right := Split(AsShipped, bs, idx), Split(Repaired, bs, idx);
    var hole: int := if wrong.root == right.root then wrong.steps[0] else -1;
    image := TellTale(bs, hole);
    node := InodeFields(seq(12, _ => RIGHT), WRONG, if right.root.Double? then 1 else WRONG, 1);
    forall rev, i: nat
      ensures SoundAt(FileMapOf(rev, bs, node), image, i) && BlockAt(FileMapOf(rev, bs, node), image, i) != 0
    {
      SplitIsValid(rev, bs, i);
      TellTaleFollow(bs, hole, Start(FileMapOf(rev, bs, node), i), Split(rev, bs, i).steps);
    }
    SplitIsValid(Repaired, bs, idx);
    SplitIsValid(AsShipped, bs, idx);
    TellTaleFollow(bs, hole, Start(FileMapOf(Repaired, bs, node), idx), right.steps);
    TellTaleFollow(bs, hole, Start(FileMapOf(AsShipped, bs, node), idx), wrong.steps);
    TellTaleBlock(bs, hole, RIGHT);
    TellTaleBlock(bs, hole, WRONG);
  }
}
