// Directories of ext2: linked lists of entries in blocks, listed block by block, and name lookup on top of that.

module Ext2Directory {
  import opened Bytes
  import opened Revisions
  import opened Ext2Layout
  import opened Ext2Blocks
  import opened Ext2Walk
  import opened Ext2Traverse
  import opened Ext2Files

  const HEADER: nat := 8

  /** `struct ext2_dir_ent` with its name. */
  datatype DirEntry = DirEntry(inode: nat, totalSize: nat, kind: byte, name: seq<byte>)

  predicate ValidEntry(e: DirEntry) {
    e.inode < TWO_TO_THE_32 && |e.name| < 0x100 && HEADER + |e.name| <= e.totalSize < 0x1_0000
  }

  function Zeros(n: nat): (z: seq<byte>)
    ensures |z| == n
  {
    seq(n, _ => 0)
  }

  function EncodeEntry(e: DirEntry): (b: seq<byte>)
    requires ValidEntry(e)
    ensures |b| == e.totalSize
  {
    U32(e.inode) + U16(e.totalSize) + [|e.name| as byte, e.kind] + e.name + Zeros(e.totalSize - HEADER - |e.name|)
  }

  /** Its bytes: inode, size of the entry, length of the name, kind, name. */
  lemma EntryBytes(e: DirEntry)
    requires ValidEntry(e)
    ensures var b := EncodeEntry(e);
            && b[0] as int + 0x100 * b[1] as int + 0x1_0000 * (b[2] as int + 0x100 * b[3] as int) == e.inode
            && b[4] as int + 0x100 * b[5] as int == e.totalSize
            && b[6] as int == |e.name| && b[7] == e.kind && b[8..8 + |e.name|] == e.name
  {
    var b := EncodeEntry(e);
    assert b[..4] == U32(e.inode) && b[4..6] == U16(e.totalSize);
    assert U32At(U32(e.inode), 0) == e.inode && U16At(U16(e.totalSize), 0) == e.totalSize;
    assert b[8..8 + |e.name|] == e.name;
  }

  predicate ValidEntries(es: seq<DirEntry>) {
    forall i | 0 <= i < |es| :: ValidEntry(es[i])
  }

  function Encode(es: seq<DirEntry>): seq<byte>
    requires ValidEntries(es)
  {
    if es == [] then [] else EncodeEntry(es[0]) + Encode(es[1..])
  }

  /** The entry that the driver sees at byte `at` of a block. */
  function EntryAt(block: seq<byte>, at: nat): DirEntry
    requires at + HEADER <= |block| && at + HEADER + block[at + 6] as nat <= |block|
  {
    DirEntry(U32At(block, at), U16At(block, at + 4), block[at + 7],
             block[at + HEADER..at + HEADER + block[at + 6] as nat])
  }

  /** A block holds the entries `es`: they fill it, or an entry of size zero follows them. */
  ghost predicate HoldsEntries(block: seq<byte>, es: seq<DirEntry>) {
    && ValidEntries(es)
    && Encode(es) <= block
    && (|Encode(es)| < |block| ==> |Encode(es)| + HEADER <= |block| && U16At(block, |Encode(es)| + 4) == 0)
  }

  lemma {:induction false} EncodeAppends(es: seq<DirEntry>, e: DirEntry)
    requires ValidEntries(es) && ValidEntry(e)
    ensures Encode(es + [e]) == Encode(es) + EncodeEntry(e)
  {
    hide EncodeEntry;
    if es == [] {
      assert Encode([e]) == EncodeEntry(e) + Encode([]);
    } else {
      EncodeAppends(es[1..], e);
      assert (es + [e])[1..] == es[1..] + [e];
    }
  }

  /** An encoded entry reads back as itself wherever it stands in a block. */
  lemma EntryReadsBack(before: seq<byte>, e: DirEntry, after: seq<byte>)
    requires ValidEntry(e)
    ensures var block := before + EncodeEntry(e) + after;
            && |before| + HEADER + block[|before| + 6] as nat <= |block|
            && EntryAt(block, |before|) == e
  {
    var b, block := EncodeEntry(e), before + EncodeEntry(e) + after;
    assert forall k | 0 <= k < |b| :: block[|before| + k] == b[k];
    assert b[..4] == U32(e.inode) && b[4..6] == U16(e.totalSize);
    assert b[6] as nat == |e.name| && b[7] == e.kind;
    assert b[HEADER..HEADER + |e.name|] == e.name;
    assert block[|before| + HEADER..|before| + HEADER + |e.name|] == b[HEADER..HEADER + |e.name|];
    assert U32At(block, |before|) == U32At(U32(e.inode), 0);
    assert U16At(block, |before| + 4) == U16At(U16(e.totalSize), 0);
  }

  // ---------------------------------------------------------------- listing

  /** The entries up to and including the first accepted one. */
  function UpToFirst(es: seq<DirEntry>, accept: DirEntry -> bool): seq<DirEntry> {
    if es == [] then [] else if accept(es[0]) then [es[0]] else [es[0]] + UpToFirst(es[1..], accept)
  }

  predicate NoneAccepted(es: seq<DirEntry>, accept: DirEntry -> bool) {
    forall i | 0 <= i < |es| :: !accept(es[i])
  }

  lemma {:induction false} UpToFirstSkips(es: seq<DirEntry>, rest: seq<DirEntry>, accept: DirEntry -> bool)
    requires NoneAccepted(es, accept)
    ensures UpToFirst(es + rest, accept) == es + UpToFirst(rest, accept)
  {
    if es == [] {
      assert es + rest == rest;
    } else {
      assert (es + rest)[1..] == es[1..] + rest;
      UpToFirstSkips(es[1..], rest, accept);
    }
  }

  lemma {:induction false} UpToFirstStops(es: seq<DirEntry>, rest: seq<DirEntry>, accept: DirEntry -> bool)
    requires !NoneAccepted(es, accept)
    ensures UpToFirst(es + rest, accept) == UpToFirst(es, accept)
  {
    if !accept(es[0]) {
      assert (es + rest)[1..] == es[1..] + rest;
      UpToFirstStops(es[1..], rest, accept);
    }
  }

  lemma NoneInParts(a: seq<DirEntry>, b: seq<DirEntry>, c: seq<DirEntry>, accept: DirEntry -> bool)
    ensures NoneAccepted(a + (b + c), accept) <==>
              NoneAccepted(a, accept) && NoneAccepted(b, accept) && NoneAccepted(c, accept)
    ensures NoneAccepted(a + b, accept) <==> NoneAccepted(a, accept) && NoneAccepted(b, accept)
  {
    var all := a + (b + c);
    assert forall i | 0 <= i < |a| :: all[i] == a[i] && (a + b)[i] == a[i];
    assert forall i | 0 <= i < |b| :: all[|a| + i] == b[i] && (a + b)[|a| + i] == b[i];
    assert forall i | 0 <= i < |c| :: all[|a| + |b| + i] == c[i];
  }

  lemma NoneInLonger(es: seq<DirEntry>, e: DirEntry, accept: DirEntry -> bool)
    ensures NoneAccepted(es + [e], accept) <==> NoneAccepted(es, accept) && !accept(e)
  {
    NoneInParts(es, [e], [], accept);
    assert [e][0] == e;
  }

  /** The entries handed out up to an accepted one, or to the end of the list. */
  lemma UpToFirstAt(es: seq<DirEntry>, k: nat, accept: DirEntry -> bool)
    requires k <= |es| && NoneAccepted(es[..k], accept)
    ensures k < |es| && accept(es[k]) ==> UpToFirst(es, accept) == es[..k] + [es[k]] && !NoneAccepted(es, accept)
    ensures k == |es| ==> UpToFirst(es, accept) == es && NoneAccepted(es, accept)
  {
    assert es == es[..k] + es[k..];
    UpToFirstSkips(es[..k], es[k..], accept);
  }

  // ---------------------------------------------------------------- where the entries of a block start

  /** The place of entry `k`, or the end of the last entry. */
  function PlaceOf(es: seq<DirEntry>, k: nat): nat
    requires ValidEntries(es) && k <= |es|
  {
    |Encode(es[..k])|
  }

  lemma {:induction false} EncodeSplits(es: seq<DirEntry>, k: nat)
    requires ValidEntries(es) && k <= |es|
    ensures Encode(es) == Encode(es[..k]) + Encode(es[k..])
  {
    hide EncodeEntry;
    if k > 0 {
      EncodeSplits(es[1..], k - 1);
      assert es[..k][1..] == es[1..][..k - 1];
      assert es[1..][k - 1..] == es[k..];
    }
  }

  lemma NextPlace(es: seq<DirEntry>, k: nat)
    requires ValidEntries(es) && k < |es|
    ensures PlaceOf(es, k + 1) == PlaceOf(es, k) + es[k].totalSize
  {
    hide EncodeEntry;
    EncodeAppends(es[..k], es[k]);
    assert es[..k + 1] == es[..k] + [es[k]];
  }

  /** The bytes of a block around entry `k`. */
  lemma Around(block: seq<byte>, es: seq<DirEntry>, k: nat) returns (before: seq<byte>, after: seq<byte>)
    requires ValidEntries(es) && Encode(es) <= block && k < |es|
    ensures |before| == PlaceOf(es, k)
    ensures block == before + EncodeEntry(es[k]) + after
  {
    hide EncodeEntry;
    before := Encode(es[..k]);
    var entry, tail, rest := EncodeEntry(es[k]), Encode(es[k..][1..]), block[|Encode(es)|..];
    EncodeSplits(es, k);
    assert Encode(es[k..]) == entry + tail;
    after := tail + rest;
    Reassociate(block, Encode(es), before, entry, tail, rest);
  }

  lemma Reassociate(block: seq<byte>, whole: seq<byte>, a: seq<byte>, b: seq<byte>, c: seq<byte>, d: seq<byte>)
    requires whole <= block && whole == a + (b + c) && d == block[|whole|..]
    ensures block == a + b + (c + d)
  {
    assert block == whole + d;
  }

  /** What stands at the place that the listing has reached. */
  lemma BlockAtEntry(block: seq<byte>, es: seq<DirEntry>, k: nat, at: nat)
    requires HoldsEntries(block, es) && k <= |es| && at == PlaceOf(es, k) < |block|
    ensures at + HEADER <= |block|
    ensures k == |es| ==> U16At(block, at + 4) == 0
    ensures k < |es| ==>
              && at + es[k].totalSize <= |block| && at + HEADER + block[at + 6] as nat <= |block|
              && EntryAt(block, at) == es[k] && U16At(block, at + 4) == es[k].totalSize > 0
  {
    hide EncodeEntry, Encode, EntryAt;
    if k == |es| {
      assert es[..k] == es;
    } else {
      var before, after := Around(block, es, k);
      EntryReadsBack(before, es[k], after);
      SizeIsRead(before, es[k], after);
    }
  }

  lemma SizeIsRead(before: seq<byte>, e: DirEntry, after: seq<byte>)
    requires ValidEntry(e)
    ensures var block, at := before + EncodeEntry(e) + after, |before|;
            && at + e.totalSize <= |block|
            && U16At(block, at + 4) == e.totalSize
  {
    hide EncodeEntry;
    EntryReadsBack(before, e, after);
  }

  lemma BlockAtEnd(block: seq<byte>, es: seq<DirEntry>, k: nat)
    requires HoldsEntries(block, es) && k <= |es| && PlaceOf(es, k) == |block|
    ensures k == |es|
  {
    hide EncodeEntry;
    EncodeSplits(es, k);
  }

  /** One block of the listing: the inner loop of `ext2_list_directory`. */
  method ListBlock(block: array<byte>, accept: DirEntry -> bool, ghost es: seq<DirEntry>)
    returns (visited: seq<DirEntry>, found: bool)
    requires HoldsEntries(block[..], es)
    ensures visited == UpToFirst(es, accept)
    ensures found <==> !NoneAccepted(es, accept)
    ensures found ==> visited != [] && accept(visited[|visited| - 1])
    ensures !found ==> visited == es
  {
    visited, found := [], false;
    var i := 0;
    ghost var k := 0;
    assert ValidEntries(es) && NoneAccepted([], accept) && HEADER == 8;
    assert PlaceOf(es, 0) == 0;
    hide *;
    while i < block.Length
      invariant 0 <= k <= |es| && visited == es[..k] && i == PlaceOf(es, k) <= block.Length
      invariant NoneAccepted(visited, accept)
      decreases block.Length - i
    {
      BlockAtEntry(block[..], es, k, i);
      var totalSize := U16At(block[..], i + 4);
      if totalSize == 0 {
        UpToFirstAt(es, k, accept);
        return;
      }
      var ent := EntryAt(block[..], i);
      i := i + totalSize;
      NextPlace(es, k);
      UpToFirstAt(es, k, accept);
      NoneInLonger(visited, ent, accept);
      visited := visited + [ent];
      if accept(ent) {
        return visited, true;
      }
      assert es[..k + 1] == es[..k] + [es[k]];
      k := k + 1;
    }
    BlockAtEnd(block[..], es, k);
    UpToFirstAt(es, k, accept);
  }

  function Concat(blocks: seq<seq<DirEntry>>): seq<DirEntry> {
    if blocks == [] then [] else blocks[0] + Concat(blocks[1..])
  }

  lemma {:induction false} ConcatSplits(blocks: seq<seq<DirEntry>>, k: nat)
    requires k < |blocks|
    ensures Concat(blocks) == Concat(blocks[..k]) + (blocks[k] + Concat(blocks[k + 1..]))
    ensures Concat(blocks[..k + 1]) == Concat(blocks[..k]) + blocks[k]
  {
    if k > 0 {
      ConcatSplits(blocks[1..], k - 1);
      assert blocks[..k][1..] == blocks[1..][..k - 1];
      assert blocks[..k + 1][1..] == blocks[1..][..k];
      assert blocks[1..][k..] == blocks[k + 1..];
    } else {
      assert blocks[..1][1..] == [];
    }
  }

  /** The directory's mapped blocks hold `blocks`, and the file ends behind them. */
  ghost predicate HoldsDirectory(f: FileMap, image: seq<byte>, blocks: seq<seq<DirEntry>>) {
    && (forall k: nat | k <= |blocks| :: WalkableBlock(f, image, k))
    && (forall k: nat | k < |blocks| :: HoldsBlock(f, image, k, blocks[k]))
    && BlockAt(f, image, |blocks|) == 0
  }

  ghost predicate WalkableBlock(f: FileMap, image: seq<byte>, k: nat) {
    SoundAt(f, image, k)
  }

  ghost predicate HoldsBlock(f: FileMap, image: seq<byte>, k: nat, es: seq<DirEntry>) {
    BlockAt(f, image, k) != 0 && HoldsEntries(FileBytes(f, image, k * f.bs, f.bs), es)
  }

  /** A block-sized read at a block boundary covers that block alone, and moves all of it or nothing. */
  lemma AlignedRead(f: FileMap, image: seq<byte>, k: nat)
    requires SoundAt(f, image, k)
    ensures k * f.bs >= 0 && Walkable(f, image, k * f.bs, f.bs)
    ensures forall n: nat | IsExtent(f, image, k * f.bs, f.bs, n) ::
              n == if BlockAt(f, image, k) == 0 then 0 else f.bs
    ensures BlockIndex(f.bs, k * f.bs) == k
  {
    ProductOfNats(k, f.bs);
    DivModIs(k * f.bs, f.bs, k, 0);
    forall idx: nat | Covered(f.bs, k * f.bs, f.bs, idx)
      ensures idx == k
    {
      assert (k + 1) * f.bs == k * f.bs + f.bs;
      DivModIs(idx * f.bs, f.bs, idx, 0);
      DivBelow(idx * f.bs, f.bs, k + 1);
    }
    forall n: nat | IsExtent(f, image, k * f.bs, f.bs, n)
      ensures n == if BlockAt(f, image, k) == 0 then 0 else f.bs
    {
      ExtentAt(f, image, k * f.bs, f.bs, n, 0);
      if n < f.bs {
        DivModIs(k * f.bs + n, f.bs, k, n);
      }
    }
  }

  /** Block `k` of the directory, or nothing when all its blocks have been read. */
  method ReadDirectoryBlock(f: FileMap, part: Partition, block: array<byte>, offset: nat, junk: seq<byte>,
                            ghost blocks: seq<seq<DirEntry>>, ghost k: nat)
    returns (delta: nat)
    requires ValidBlockSize(f.bs) && |junk| == f.bs <= |part.image| && block.Length == f.bs
    requires HoldsDirectory(f, part.image, blocks) && k <= |blocks| && offset == k * f.bs
    modifies part, block
    ensures delta == if k < |blocks| then f.bs else 0
    ensures k < |blocks| ==> part.image == old(part.image) && HoldsEntries(block[..], blocks[k])
    ensures k == |blocks| ==> part.image == Spilt(old(part.image), EndSpills(f, k), junk)
  {
    ghost var image, before := part.image, block[..];
    DirectoryBlockFacts(f, image, blocks, k);
    hide *;
    delta := ReadInodeData(f, part, block, offset, f.bs, junk);
    BlockReadIs(f, image, part.image, blocks, k, before, block[..], delta, junk);
  }

  /** The directory ends at a block that hangs off a zero root table pointer. */
  predicate EndSpills(f: FileMap, k: nat) {
    f.rev.AsShipped? && k >= DIRECT_COUNT && Start(f, k) == 0
  }

  lemma DirectoryBlockFacts(f: FileMap, image: seq<byte>, blocks: seq<seq<DirEntry>>, k: nat)
    requires HoldsDirectory(f, image, blocks) && k <= |blocks|
    ensures k * f.bs >= 0 && BlockIndex(f.bs, k * f.bs) == k && SoundAt(f, image, k)
    ensures Walkable(f, image, k * f.bs, f.bs)
    ensures k < |blocks| <==> BlockAt(f, image, k) != 0
    ensures k < |blocks| ==> HoldsEntries(FileBytes(f, image, k * f.bs, f.bs), blocks[k])
  {
    assert WalkableBlock(f, image, k);
    assert k < |blocks| ==> HoldsBlock(f, image, k, blocks[k]);
    AlignedRead(f, image, k);
  }

  lemma BlockReadIs(f: FileMap, image: seq<byte>, image': seq<byte>, blocks: seq<seq<DirEntry>>, k: nat,
                    before: seq<byte>, buffer: seq<byte>, n: nat, junk: seq<byte>)
    requires |before| == |buffer| == f.bs && |junk| == f.bs <= |image| && k * f.bs >= 0
    requires HoldsDirectory(f, image, blocks) && k <= |blocks|
    requires Outcome(f, image, image', k * f.bs, f.bs, ReadInto, before, buffer, n, junk)
    ensures n == if k < |blocks| then f.bs else 0
    ensures k < |blocks| ==> image' == image && HoldsEntries(buffer, blocks[k])
    ensures k == |blocks| ==> image' == Spilt(image, EndSpills(f, k), junk)
  {
    hide HoldsEntries, FileBytes, IsExtent, BlockAt, Start, BlockIndex, Spilt, HoldsDirectory, SoundAt;
    DirectoryBlockFacts(f, image, blocks, k);
    AlignedRead(f, image, k);
    if k < |blocks| {
      NothingSpilt(image, junk);
      assert buffer == FileBytes(f, image, k * f.bs, f.bs);
    }
  }

  lemma NothingSpilt(image: seq<byte>, junk: seq<byte>)
    requires |junk| <= |image|
    ensures Spilt(image, false, junk) == image
  {}

  /** `ext2_list_directory`: `visited` are the entries handed to the callback, in order; `accept` says for which
      entries the callback returns 0. */
  method ListDirectory(f: FileMap, part: Partition, accept: DirEntry -> bool, junk: seq<byte>,
                       ghost blocks: seq<seq<DirEntry>>)
    returns (visited: seq<DirEntry>)
    requires ValidBlockSize(f.bs) && |junk| == f.bs <= |part.image|
    requires HoldsDirectory(f, part.image, blocks)
    modifies part
    ensures visited == UpToFirst(Concat(blocks), accept)
    ensures part.image == Spilt(old(part.image), NoneAccepted(Concat(blocks), accept) && EndSpills(f, |blocks|), junk)
  {
    var block := new byte[f.bs];
    var offset := 0;
    ghost var k, image := 0, part.image;
    visited := [];
    assert Concat([]) == [] && NoneAccepted([], accept);
    hide *;
    while true
      invariant 0 <= k <= |blocks| && offset == k * f.bs && part.image == image
      invariant visited == Concat(blocks[..k]) && NoneAccepted(visited, accept)
      decreases |blocks| - k
    {
      var delta := ReadDirectoryBlock(f, part, block, offset, junk, blocks, k);
      if delta == 0 {
        AllBlocksListed(blocks, accept);
        assert blocks[..k] == blocks;
        return;
      }
      var more, found := ListBlock(block, accept, blocks[k]);
      BlockListed(blocks, k, accept);
      visited := visited + more;
      if found {
        NothingSpilt(image, junk);
        return;
      }
      offset := offset + delta;
      assert (k + 1) * f.bs == k * f.bs + f.bs;
      k := k + 1;
    }
  }

  lemma AllBlocksListed(blocks: seq<seq<DirEntry>>, accept: DirEntry -> bool)
    ensures NoneAccepted(Concat(blocks), accept) ==> UpToFirst(Concat(blocks), accept) == Concat(blocks)
  {
    var es := Concat(blocks);
    if NoneAccepted(es, accept) {
      assert es[..|es|] == es;
      UpToFirstAt(es, |es|, accept);
    }
  }

  lemma BlockListed(blocks: seq<seq<DirEntry>>, k: nat, accept: DirEntry -> bool)
    requires k < |blocks| && NoneAccepted(Concat(blocks[..k]), accept)
    ensures NoneAccepted(blocks[k], accept) ==>
              Concat(blocks[..k + 1]) == Concat(blocks[..k]) + blocks[k]
                  && NoneAccepted(Concat(blocks[..k + 1]), accept)
    ensures !NoneAccepted(blocks[k], accept) ==>
              && UpToFirst(Concat(blocks), accept) == Concat(blocks[..k]) + UpToFirst(blocks[k], accept)
              && !NoneAccepted(Concat(blocks), accept)
  {
    hide *;
    var done, rest := Concat(blocks[..k]), Concat(blocks[k + 1..]);
    ConcatSplits(blocks, k);
    NoneInParts(done, blocks[k], rest, accept);
    UpToFirstSkips(done, blocks[k] + rest, accept);
    if !NoneAccepted(blocks[k], accept) {
      UpToFirstStops(blocks[k], rest, accept);
    }
  }

  // ---------------------------------------------------------------- lookup

  /** `strncmp(name, target, n) == 0` for a `name` of at least `n` bytes and a NUL-terminated `target`. */
  predicate StrncmpIsZero(name: seq<byte>, target: seq<byte>, n: nat)
    requires n <= |name|
    decreases n
  {
    n == 0 ||
    var a, b := name[0], if target == [] then 0 else target[0];
    a == b && (a == 0 || StrncmpIsZero(name[1..], target[1..], n - 1))
  }

  /** A directory name that holds no NUL matches exactly the targets that it is a prefix of. */
  lemma {:induction false} MatchIsPrefix(name: seq<byte>, target: seq<byte>)
    requires 0 !in name && 0 !in target
    ensures StrncmpIsZero(name, target, |name|) <==> name <= target
  {
    if name != [] {
      assert name[0] in name;
      if target != [] && name[0] == target[0] {
        MatchIsPrefix(name[1..], target[1..]);
        assert name == [name[0]] + name[1..] && target == [target[0]] + target[1..];
      }
    }
  }

  /** The index of the first entry that satisfies `p`, or the number of entries. */
  function FirstIndex(es: seq<DirEntry>, p: DirEntry -> bool): (i: nat)
    ensures i <= |es|
    ensures i < |es| ==> p(es[i])
    ensures NoneAccepted(es[..i], p)
  {
    if es == [] || p(es[0]) then 0
    else
      var i := 1 + FirstIndex(es[1..], p);
      assert es[..i] == [es[0]] + es[1..][..i - 1];
      i
  }

  lemma {:induction false} UpToFirstIndex(es: seq<DirEntry>, p: DirEntry -> bool)
    ensures UpToFirst(es, p) == if FirstIndex(es, p) < |es| then es[..FirstIndex(es, p) + 1] else es
  {
    if es != [] && !p(es[0]) {
      UpToFirstIndex(es[1..], p);
    }
  }

  /** `callback_get_inode_in_dir` accepts an entry. */
  function Matches(target: seq<byte>): DirEntry -> bool {
    (e: DirEntry) => StrncmpIsZero(e.name, target, |e.name|)
  }

  function NameIsPrefixOf(target: seq<byte>): DirEntry -> bool {
    (e: DirEntry) => e.name <= target
  }

  function NameIs(target: seq<byte>): DirEntry -> bool {
    (e: DirEntry) => e.name == target
  }

  function InodeOfFirst(es: seq<DirEntry>, p: DirEntry -> bool): nat {
    if FirstIndex(es, p) < |es| then es[FirstIndex(es, p)].inode else 0
  }

  predicate IsFirstPrefix(es: seq<DirEntry>, filename: seq<byte>, i: nat) {
    i < |es| && es[i].name <= filename && forall k | 0 <= k < i :: !(es[k].name <= filename)
  }

  lemma InodeOfFirstIs(es: seq<DirEntry>, filename: seq<byte>)
    ensures (forall e | e in es :: !(e.name <= filename)) ==> InodeOfFirst(es, NameIsPrefixOf(filename)) == 0
    ensures forall i: nat | IsFirstPrefix(es, filename, i) :: InodeOfFirst(es, NameIsPrefixOf(filename)) == es[i].inode
  {
    hide FirstIndex;
    var found := FirstIndex(es, NameIsPrefixOf(filename));
    assert forall k | 0 <= k < found :: !(es[..found][k].name <= filename);
    assert found < |es| ==> es[found] in es;
  }

  /** `ext2_get_inode_in_dir`: the inode of the first entry whose name is a prefix of the file name, or 0. */
  method GetInodeInDir(f: FileMap, part: Partition, filename: seq<byte>, junk: seq<byte>,
                       ghost blocks: seq<seq<DirEntry>>)
    returns (inode: nat)
    requires ValidBlockSize(f.bs) && |junk| == f.bs <= |part.image|
    requires HoldsDirectory(f, part.image, blocks)
    requires 0 !in filename && forall e | e in Concat(blocks) :: 0 !in e.name
    modifies part
    ensures inode == InodeOfFirst(Concat(blocks), NameIsPrefixOf(filename))
    ensures (forall e | e in Concat(blocks) :: !(e.name <= filename)) ==> inode == 0
    ensures forall i: nat | IsFirstPrefix(Concat(blocks), filename, i) :: inode == Concat(blocks)[i].inode
  {
    hide *;
    var accept := Matches(filename);
    var visited := ListDirectory(f, part, accept, junk, blocks);
    LastVisited(Concat(blocks), accept);
    SameFirstIndex(Concat(blocks), filename);
    InodeOfFirstIs(Concat(blocks), filename);
    inode := if visited != [] && accept(visited[|visited| - 1]) then visited[|visited| - 1].inode else 0;
  }

  lemma LastVisited(es: seq<DirEntry>, p: DirEntry -> bool)
    ensures var visited := UpToFirst(es, p);
            InodeOfFirst(es, p)
            == if visited != [] && p(visited[|visited| - 1]) then visited[|visited| - 1].inode else 0
  {
    UpToFirstIndex(es, p);
    var i := FirstIndex(es, p);
    assert i == |es| ==> forall j | 0 <= j < |es| :: !p(es[..i][j]);
  }

  lemma {:induction false} SameFirstIndex(es: seq<DirEntry>, target: seq<byte>)
    requires 0 !in target && forall e | e in es :: 0 !in e.name
    ensures FirstIndex(es, Matches(target)) == FirstIndex(es, NameIsPrefixOf(target))
    ensures InodeOfFirst(es, Matches(target)) == InodeOfFirst(es, NameIsPrefixOf(target))
  {
    if es != [] {
      MatchIsPrefix(es[0].name, target);
      SameFirstIndex(es[1..], target);
    }
  }

  /** Lookup finds the entry of that very name exactly when no entry before it has a name that is a proper prefix. */
  lemma LookupIsExactIff(es: seq<DirEntry>, filename: seq<byte>)
    ensures var exact := FirstIndex(es, NameIs(filename));
            FirstIndex(es, NameIsPrefixOf(filename)) == exact
            <==> forall i | 0 <= i < exact :: !(es[i].name < filename)
  {
    var exact := FirstIndex(es, NameIs(filename));
    var found := FirstIndex(es, NameIsPrefixOf(filename));
    assert forall i | 0 <= i < found :: !(es[..found][i].name <= filename);
    assert forall i | 0 <= i < exact :: es[..exact][i].name != filename;
    if found < exact {
      assert es[found].name < filename;
    }
  }

  /** A directory with `a` before `ab`: looking up `ab` finds `a`. */
  lemma LookupFindsPrefix(e: DirEntry, f: DirEntry)
    requires e.name == [97] && f.name == [97, 98]
    ensures FirstIndex([e, f], NameIsPrefixOf(f.name)) == 0
    ensures FirstIndex([e, f], NameIs(f.name)) == 1
  {
    assert [e, f][1..] == [f];
  }

  /** An entry that is in use, as inode 0 says that it is not, and has that very name. */
  function UsedAs(target: seq<byte>): DirEntry -> bool {
    (e: DirEntry) => e.inode != 0 && e.name == target
  }

  /** Entry `k` stands between a search and the `used`-th entry: its name is a prefix, it names another inode, and no
      entry before it with such a name names the one wanted. */
  predicate Hides(es: seq<DirEntry>, k: nat, used: nat, filename: seq<byte>, inode: nat)
    requires used <= |es|
  {
    && k < used && es[k].name <= filename && es[k].inode != inode
    && forall l | 0 <= l < k :: !(es[l].name <= filename && es[l].inode == inode)
  }

  /** The driver does not look at unused entries apart.  Lookup returns the inode of the first used entry of the name,
      or 0 if there is none, exactly when no entry before it hides it. */
  lemma LookupFindsUsedIff(es: seq<DirEntry>, filename: seq<byte>)
    ensures var used, inode := FirstIndex(es, UsedAs(filename)), InodeOfFirst(es, UsedAs(filename));
            InodeOfFirst(es, NameIsPrefixOf(filename)) == inode <==>
              forall k: nat :: !Hides(es, k, used, filename, inode)
  {
    hide FirstIndex;
    var used, found := FirstIndex(es, UsedAs(filename)), FirstIndex(es, NameIsPrefixOf(filename));
    var inode := InodeOfFirst(es, UsedAs(filename));
    assert forall i | 0 <= i < found :: !(es[..found][i].name <= filename);
    assert InodeOfFirst(es, NameIsPrefixOf(filename)) == if found < |es| then es[found].inode else 0;
    assert used < |es| ==> found <= used;
    if found < used {
      assert es[found].inode != inode <==> Hides(es, found, used, filename, inode);
    }
  }

  /** An unused entry without a name, or with the name looked for, hides a used entry behind it. */
  lemma LookupFindsUnused(e: DirEntry, f: DirEntry)
    requires e.inode == 0 && (e.name == [] || e.name == f.name) && f.inode != 0
    ensures InodeOfFirst([e, f], NameIsPrefixOf(f.name)) == 0
    ensures InodeOfFirst([e, f], UsedAs(f.name)) == f.inode
  {
    assert [e, f][1..] == [f];
    assert FirstIndex([f], UsedAs(f.name)) == 0;
    assert FirstIndex([e, f], UsedAs(f.name)) == 1;
  }
}
