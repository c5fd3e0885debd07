// The block walk of the ext2 driver: one loop over a byte range that keeps the last singly, doubly and triply
// indirect table it used, writes a table back when it replaces it and once more at the end, and hands every block
// to a read or a write of the partition.

module Ext2Walk {
  import opened Bytes
  import opened Revisions
  import opened Ext2Layout
  import opened Ext2Blocks

  /** The open partition: `vfs_seek`, `vfs_read` and `vfs_write` on the bytes of the disk. */
  class Partition {
    var image: seq<byte>
    var pos: nat

    method Seek(at: nat)
      modifies this`pos
      ensures pos == at
    {
      pos := at;
    }

    method Read(n: nat) returns (data: seq<byte>)
      requires pos + n <= |image|
      modifies this`pos
      ensures data == image[old(pos)..old(pos) + n]
    {
      data := image[pos..pos + n];
      pos := pos + n;
    }

    method Write(data: seq<byte>)
      requires pos + |data| <= |image|
      modifies this
      ensures image == Splice(old(image), old(pos), data)
    {
      image := Splice(image, pos, data);
      pos := pos + |data|;
    }
  }

  /** A table pointer of the walk: NULL, or a buffer of one block. */
  datatype Buffer = Null | Table(bytes: seq<byte>)

  /** The five locals that the walk keeps between blocks. */
  datatype Cache = Cache(sibp: Buffer, lastDoubly: nat, dibp: Buffer, lastTriply: nat, tibp: Buffer) {
    /** The block that the exit path writes each buffer back to. */
    function SibpTag(node: Inode): nat {
      if lastDoubly == 0 then node.sibp else lastDoubly
    }

    function DibpTag(node: Inode): nat {
      if lastTriply == 0 then node.dibp else lastTriply
    }

    ghost function Tags(node: Inode): set<nat> {
      (if sibp.Null? then {} else {SibpTag(node)}) +
      (if dibp.Null? then {} else {DibpTag(node)}) +
      (if tibp.Null? then {} else {node.tibp})
    }
  }

  /** `table` is what the disk holds in block `tag`. */
  ghost predicate Mirrors(image: seq<byte>, bs: nat, table: Buffer, tag: nat) {
    table.Table? ==> tag != 0 && InImage(image, bs, tag) && table.bytes == BlockBytes(image, bs, tag)
  }

  /** Every loaded table buffer equals the disk contents of the block that its tag names. */
  ghost predicate CacheOk(image: seq<byte>, bs: nat, node: Inode, c: Cache) {
    && Mirrors(image, bs, c.sibp, c.SibpTag(node))
    && Mirrors(image, bs, c.dibp, c.DibpTag(node))
    && Mirrors(image, bs, c.tibp, node.tibp)
    && (c.sibp.Null? ==> c.lastDoubly == 0)
    && (c.dibp.Null? ==> c.lastTriply == 0)
  }

  /** Buffers come only from regions that the walk has reached: what lets a NULL test stand in for a tag test. */
  ghost predicate Ordered(rev: Revision, bs: nat, c: Cache, idx: nat)
    requires bs >= 4
  {
    && (c.lastDoubly != 0 ==> idx >= DIRECT_COUNT && Doubly(rev, bs, idx) >= 1)
    && (c.lastTriply != 0 ==> idx >= DIRECT_COUNT && Doubly(rev, bs, idx) >= bs / 4 + 1)
  }

  lemma OrderedLater(rev: Revision, bs: nat, c: Cache, idx: nat, idx': nat)
    requires bs >= 4 && idx <= idx' && Ordered(rev, bs, c, idx)
    ensures Ordered(rev, bs, c, idx')
  {
    if idx >= DIRECT_COUNT {
      DivMonotone(idx - DIRECT_COUNT, idx' - DIRECT_COUNT, if rev.AsShipped? then bs else bs / 4);
    }
  }

  /** The buffer of a root table whose pointer is zero: allocated, never filled, and tagged with block 0. */
  ghost predicate Spills(c: Cache, node: Inode, junk: seq<byte>) {
    || (c.sibp == Table(junk) && c.SibpTag(node) == 0)
    || (c.dibp == Table(junk) && c.DibpTag(node) == 0)
    || (c.tibp == Table(junk) && node.tibp == 0)
  }

  ghost predicate CleanOrJunk(image: seq<byte>, bs: nat, table: Buffer, tag: nat, junk: seq<byte>) {
    Mirrors(image, bs, table, tag) || (table == Table(junk) && tag == 0)
  }

  ghost predicate ReadyToFlush(image: seq<byte>, bs: nat, node: Inode, c: Cache, junk: seq<byte>) {
    && CleanOrJunk(image, bs, c.sibp, c.SibpTag(node), junk)
    && CleanOrJunk(image, bs, c.dibp, c.DibpTag(node), junk)
    && CleanOrJunk(image, bs, c.tibp, node.tibp, junk)
  }

  /** What is on the disk after block 0 has been overwritten by a buffer that nothing was read into. */
  function Spilt(image: seq<byte>, spills: bool, junk: seq<byte>): seq<byte>
    requires |junk| <= |image|
  {
    if spills then Splice(image, 0, junk) else image
  }

  // ---------------------------------------------------------------- table buffers

  /** `ext2_load_read_block`; the create callbacks of the driver all yield 0.
      Shipped: the buffer is allocated before the pointer is looked at.  Repair: the pointer is looked at first. */
  method LoadReadBlock(rev: Revision, part: Partition, bs: nat, pointer: nat, table: Buffer, junk: seq<byte>)
    returns (table': Buffer, ok: bool)
    requires pointer != 0 ==> InImage(part.image, bs, pointer)
    modifies part`pos
    ensures ok <==> pointer != 0
    ensures table' == if ok then Table(BlockBytes(part.image, bs, pointer))
                      else if table.Null? && rev.AsShipped? then Table(junk) else table
  {
    table' := table;
    if table'.Null? && (rev.AsShipped? || pointer != 0) {
      table' := Table(junk);
    }
    if pointer == 0 {
      return table', false;
    }
    assert (pointer + 1) * bs == pointer * bs + bs;
    part.Seek(pointer * bs);
    var data := part.Read(bs);
    return Table(data), true;
  }

  lemma RewritingIsNothing(image: seq<byte>, bs: nat, block: nat)
    requires InImage(image, bs, block)
    ensures block * bs + bs <= |image|
    ensures Splice(image, block * bs, BlockBytes(image, bs, block)) == image
  {
    assert (block + 1) * bs == block * bs + bs;
  }

  method WriteBack(part: Partition, bs: nat, table: Buffer, tag: nat)
    requires table.Table? && Mirrors(part.image, bs, table, tag)
    modifies part
    ensures part.image == old(part.image)
  {
    RewritingIsNothing(part.image, bs, tag);
    part.Seek(tag * bs);
    part.Write(table.bytes);
  }

  /** Make `table` hold block `want`, writing back and replacing the block `last` that it holds if that is another. */
  method Replace(rev: Revision, part: Partition, bs: nat, table: Buffer, last: nat, want: nat, junk: seq<byte>)
    returns (table': Buffer)
    requires want != 0 && InImage(part.image, bs, want)
    requires last != 0 ==> table.Table? && Mirrors(part.image, bs, table, last)
    modifies part
    ensures part.image == old(part.image)
    ensures table' == Table(BlockBytes(part.image, bs, want))
  {
    table' := table;
    if last != 0 && want != last {
      WriteBack(part, bs, table, last);
    } else if want == last {
      return;
    }
    var ok;
    table', ok := LoadReadBlock(rev, part, bs, want, table, junk);
  }

  /** The entries taken in the doubly and singly indirect tables, past the singly indirect region. */
  function InnerSteps(rev: Revision, bs: nat, idx: nat): seq<nat>
    requires bs >= 4 && idx >= DIRECT_COUNT && Doubly(rev, bs, idx) >= 1
  {
    [(Doubly(rev, bs, idx) - 1) % (bs / 4), (idx - DIRECT_COUNT) % (bs / 4)]
  }

  /** The doubly indirect table `tag` is on the way to file block `idx`, two steps before the block. */
  ghost predicate OnTheWay(f: FileMap, image: seq<byte>, idx: nat, tag: nat)
    requires idx >= DIRECT_COUNT && Doubly(f.rev, f.bs, idx) >= 1
  {
    && Sound(image, f.bs, tag, InnerSteps(f.rev, f.bs, idx))
    && BlockAt(f, image, idx) == Follow(image, f.bs, tag, InnerSteps(f.rev, f.bs, idx))
    && Tables(image, f.bs, tag, InnerSteps(f.rev, f.bs, idx)) <= TablesAt(f, image, idx)
  }

  /** The entry of the triply indirect table leads on to the block, or is 0 if the block is unmapped. */
  ghost predicate WayFromTriple(f: FileMap, image: seq<byte>, idx: nat)
    requires idx >= DIRECT_COUNT && Doubly(f.rev, f.bs, idx) >= f.bs / 4 + 1
  {
    InImage(image, f.bs, f.node.tibp)
    && var k := Split(f.rev, f.bs, idx).steps[0];
       && 4 * k + 4 <= f.bs
       && var block := TableEntry(BlockBytes(image, f.bs, f.node.tibp), k);
          && OnTheWay(f, image, idx, block)
          && (if block == 0 then BlockAt(f, image, idx) == 0
              else InImage(image, f.bs, block) && block in TablesAt(f, image, idx))
  }

  lemma TripleWay(f: FileMap, image: seq<byte>, idx: nat)
    requires idx >= DIRECT_COUNT && Doubly(f.rev, f.bs, idx) >= f.bs / 4 + 1
    requires SoundAt(f, image, idx) && f.node.tibp != 0
    ensures WayFromTriple(f, image, idx)
  {
    var steps := Split(f.rev, f.bs, idx).steps;
    assert steps == [steps[0]] + InnerSteps(f.rev, f.bs, idx);
    FollowOneStep(image, f.bs, f.node.tibp, steps[0], InnerSteps(f.rev, f.bs, idx));
  }

  /** Where the walk starts for an index past the singly indirect region. */
  lemma RootWay(f: FileMap, image: seq<byte>, idx: nat)
    requires idx >= DIRECT_COUNT && Doubly(f.rev, f.bs, idx) >= 1 && SoundAt(f, image, idx)
    ensures Start(f, idx) == if Doubly(f.rev, f.bs, idx) >= f.bs / 4 + 1 then f.node.tibp else f.node.dibp
    ensures Start(f, idx) == 0 ==> BlockAt(f, image, idx) == 0
    ensures Start(f, idx) != 0 ==> InImage(image, f.bs, Start(f, idx)) && Start(f, idx) in TablesAt(f, image, idx)
    ensures Doubly(f.rev, f.bs, idx) < f.bs / 4 + 1 ==> OnTheWay(f, image, idx, f.node.dibp)
  {
    hide BlockBytes, TableEntry, InImage;
  }

  /** The doubly indirect table for an index in the triply indirect region. */
  method SelectTriple(f: FileMap, part: Partition, idx: nat, c0: Cache, junk: seq<byte>)
    returns (c: Cache, ok: bool)
    requires ValidBlockSize(f.bs) && idx >= DIRECT_COUNT && Doubly(f.rev, f.bs, idx) >= f.bs / 4 + 1
    requires SoundAt(f, part.image, idx)
    requires CacheOk(part.image, f.bs, f.node, c0)
    modifies part
    ensures part.image == old(part.image)
    ensures c.sibp == c0.sibp && c.lastDoubly == c0.lastDoubly
    ensures ok ==>
              && CacheOk(part.image, f.bs, f.node, c) && c.dibp.Table?
              && OnTheWay(f, part.image, idx, c.DibpTag(f.node))
    ensures !ok ==> BlockAt(f, part.image, idx) == 0 && ReadyToFlush(part.image, f.bs, f.node, c, junk)
    ensures !ok ==> (Spills(c, f.node, junk) <==> f.rev.AsShipped? && f.node.tibp == 0)
    ensures f.node.tibp != 0 ==> c.Tags(f.node) <= c0.Tags(f.node) + TablesAt(f, part.image, idx)
    ensures ok ==> f.node.tibp != 0
  {
    RootWay(f, part.image, idx);
    assert f.node.tibp != 0 ==> WayFromTriple(f, part.image, idx) by {
      if f.node.tibp != 0 {
        TripleWay(f, part.image, idx);
      }
    }
    assert |Split(f.rev, f.bs, idx).steps| == 3;
    hide Sound, Follow, Tables, BlockAt, TablesAt, SoundAt, Start, Split, Doubly;
    hide InnerSteps, OnTheWay, InImage, BlockBytes, TableEntry;
    c, ok := c0, true;
    if c.tibp.Null? {
      var tibp;
      tibp, ok := LoadReadBlock(f.rev, part, f.bs, f.node.tibp, c.tibp, junk);
      c := c.(tibp := tibp);
      if !ok { return; }
    }
    var block := TableEntry(c.tibp.bytes, Split(f.rev, f.bs, idx).steps[0]);
    if block == 0 { return c, false; }
    var dibp := Replace(f.rev, part, f.bs, c.dibp, c.lastTriply, block, junk);
    c := c.(dibp := dibp, lastTriply := block);
  }

  /** The doubly indirect table for an index past the singly indirect region. */
  method SelectDouble(f: FileMap, part: Partition, idx: nat, c0: Cache, junk: seq<byte>)
    returns (c: Cache, ok: bool)
    requires ValidBlockSize(f.bs) && idx >= DIRECT_COUNT && Doubly(f.rev, f.bs, idx) >= 1
    requires SoundAt(f, part.image, idx)
    requires CacheOk(part.image, f.bs, f.node, c0) && Ordered(f.rev, f.bs, c0, idx)
    modifies part
    ensures part.image == old(part.image)
    ensures c.sibp == c0.sibp && c.lastDoubly == c0.lastDoubly && Ordered(f.rev, f.bs, c, idx)
    ensures ok ==>
              && CacheOk(part.image, f.bs, f.node, c) && c.dibp.Table?
              && OnTheWay(f, part.image, idx, c.DibpTag(f.node))
    ensures !ok ==> BlockAt(f, part.image, idx) == 0 && ReadyToFlush(part.image, f.bs, f.node, c, junk)
    ensures !ok ==> (Spills(c, f.node, junk) <==> f.rev.AsShipped? && Start(f, idx) == 0)
    ensures ok ==> Start(f, idx) != 0
    ensures Start(f, idx) != 0 ==> c.Tags(f.node) <= c0.Tags(f.node) + TablesAt(f, part.image, idx)
  {
    RootWay(f, part.image, idx);
    hide Sound, Follow, Tables, BlockAt, TablesAt, SoundAt, Start, Split, Doubly;
    hide InnerSteps, OnTheWay, InImage, BlockBytes, TableEntry;
    if Doubly(f.rev, f.bs, idx) >= f.bs / 4 + 1 {
      c, ok := SelectTriple(f, part, idx, c0, junk);
    } else {
      c, ok := c0, true;
      if c.dibp.Null? {
        var dibp;
        dibp, ok := LoadReadBlock(f.rev, part, f.bs, f.node.dibp, c.dibp, junk);
        c := c.(dibp := dibp);
      }
    }
  }

  /** The singly indirect table `tag` is on the way to file block `idx`, one step before the block. */
  ghost predicate LastOnTheWay(f: FileMap, image: seq<byte>, idx: nat, tag: nat)
    requires idx >= DIRECT_COUNT
  {
    var single := (idx - DIRECT_COUNT) % (f.bs / 4);
    && tag in TablesAt(f, image, idx)
    && InImage(image, f.bs, tag) && 4 * single + 4 <= f.bs
    && BlockAt(f, image, idx) == TableEntry(BlockBytes(image, f.bs, tag), single)
  }

  lemma SingleWay(image: seq<byte>, bs: nat, tag: nat, single: nat)
    requires tag != 0 && Sound(image, bs, tag, [single])
    ensures InImage(image, bs, tag) && 4 * single + 4 <= bs && tag in Tables(image, bs, tag, [single])
    ensures Follow(image, bs, tag, [single]) == TableEntry(BlockBytes(image, bs, tag), single)
  {
    FollowOneStep(image, bs, tag, single, []);
    assert [single] + [] == [single];
  }

  lemma DoubleWay(f: FileMap, image: seq<byte>, idx: nat, tag: nat)
    requires idx >= DIRECT_COUNT && Doubly(f.rev, f.bs, idx) >= 1
    requires tag != 0 && OnTheWay(f, image, idx, tag)
    ensures InImage(image, f.bs, tag)
    ensures var k := InnerSteps(f.rev, f.bs, idx)[0];
            && 4 * k + 4 <= f.bs
            && var block := TableEntry(BlockBytes(image, f.bs, tag), k);
               if block == 0 then BlockAt(f, image, idx) == 0
               else LastOnTheWay(f, image, idx, block)
  {
    var steps := InnerSteps(f.rev, f.bs, idx);
    FollowOneStep(image, f.bs, tag, steps[0], [steps[1]]);
    assert steps == [steps[0]] + [steps[1]];
    var block := TableEntry(BlockBytes(image, f.bs, tag), steps[0]);
    if block != 0 {
      SingleWay(image, f.bs, block, steps[1]);
    }
  }

  /** The singly indirect table for an index past the singly indirect region. */
  method SelectBelowDouble(f: FileMap, part: Partition, idx: nat, c0: Cache, junk: seq<byte>)
    returns (c: Cache, ok: bool)
    requires ValidBlockSize(f.bs) && idx >= DIRECT_COUNT && Doubly(f.rev, f.bs, idx) >= 1
    requires SoundAt(f, part.image, idx)
    requires CacheOk(part.image, f.bs, f.node, c0) && c0.dibp.Table? && Ordered(f.rev, f.bs, c0, idx)
    requires OnTheWay(f, part.image, idx, c0.DibpTag(f.node))
    modifies part
    ensures part.image == old(part.image)
    ensures Ordered(f.rev, f.bs, c, idx) && CacheOk(part.image, f.bs, f.node, c)
    ensures ok ==> c.sibp.Table? && LastOnTheWay(f, part.image, idx, c.SibpTag(f.node))
    ensures !ok ==> BlockAt(f, part.image, idx) == 0
    ensures c.Tags(f.node) <= c0.Tags(f.node) + TablesAt(f, part.image, idx)
  {
    DoubleWay(f, part.image, idx, c0.DibpTag(f.node));
    var block := TableEntry(c0.dibp.bytes, InnerSteps(f.rev, f.bs, idx)[0]);
    if block == 0 { return c0, false; }
    var sibp := Replace(f.rev, part, f.bs, c0.sibp, c0.lastDoubly, block, junk);
    return c0.(sibp := sibp, lastDoubly := block), true;
  }

  /** The singly indirect table for an index past the direct pointers. */
  method SelectSingle(f: FileMap, part: Partition, idx: nat, c0: Cache, junk: seq<byte>)
    returns (c: Cache, ok: bool)
    requires ValidBlockSize(f.bs) && idx >= DIRECT_COUNT
    requires SoundAt(f, part.image, idx)
    requires CacheOk(part.image, f.bs, f.node, c0) && Ordered(f.rev, f.bs, c0, idx)
    modifies part
    ensures part.image == old(part.image)
    ensures Ordered(f.rev, f.bs, c, idx)
    ensures ok ==>
              && CacheOk(part.image, f.bs, f.node, c) && c.sibp.Table?
              && LastOnTheWay(f, part.image, idx, c.SibpTag(f.node))
    ensures !ok ==> BlockAt(f, part.image, idx) == 0 && ReadyToFlush(part.image, f.bs, f.node, c, junk)
    ensures !ok ==> (Spills(c, f.node, junk) <==> f.rev.AsShipped? && Start(f, idx) == 0)
    ensures ok ==> c.Tags(f.node) <= c0.Tags(f.node) + TablesAt(f, part.image, idx)
  {
    c, ok := c0, true;
    if Doubly(f.rev, f.bs, idx) == 0 {
      if c.sibp.Null? {
        var sibp;
        sibp, ok := LoadReadBlock(f.rev, part, f.bs, f.node.sibp, c.sibp, junk);
        c := c.(sibp := sibp);
        if !ok { return; }
      }
      SingleWay(part.image, f.bs, f.node.sibp, (idx - DIRECT_COUNT) % (f.bs / 4));
    } else {
      c, ok := SelectDouble(f, part, idx, c0, junk);
      if ok {
        c, ok := SelectBelowDouble(f, part, idx, c, junk);
      }
    }
  }

  /** One pass of the walk past the direct pointers: the block that holds file block `idx`, or 0. */
  method ResolveIndirect(f: FileMap, part: Partition, idx: nat, c0: Cache, junk: seq<byte>)
    returns (c: Cache, block: nat)
    requires ValidBlockSize(f.bs) && idx >= DIRECT_COUNT
    requires SoundAt(f, part.image, idx)
    requires CacheOk(part.image, f.bs, f.node, c0) && Ordered(f.rev, f.bs, c0, idx)
    modifies part
    ensures part.image == old(part.image)
    ensures block == BlockAt(f, part.image, idx)
    ensures Ordered(f.rev, f.bs, c, idx)
    ensures ReadyToFlush(part.image, f.bs, f.node, c, junk)
    ensures Spills(c, f.node, junk) <==> f.rev.AsShipped? && Start(f, idx) == 0
    ensures block != 0 ==> CacheOk(part.image, f.bs, f.node, c)
    ensures block != 0 ==> c.Tags(f.node) <= c0.Tags(f.node) + TablesAt(f, part.image, idx)
  {
    var ok;
    c, ok := SelectSingle(f, part, idx, c0, junk);
    block := if ok then TableEntry(c.sibp.bytes, (idx - DIRECT_COUNT) % (f.bs / 4)) else 0;
  }
}
