// Byte reads and writes of an NVMe namespace, done with page-sized commands on logical blocks.

module NvmeNamespace {
  import opened Bytes
  import opened Revisions

  const PAGE_SIZE: nat := 4096

  predicate ValidLbaSize(lba: nat) {
    lba > 0 && PAGE_SIZE % lba == 0
  }

  /** Every power of two up to the page size will do. */
  lemma LbaExponentIsValid(exponent: nat)
    requires exponent <= 12
    ensures ValidLbaSize(Pow2(exponent))
  {
    Pow2Adds(12 - exponent, exponent);
    assert Pow2(6) == 64;
    Pow2Adds(6, 6);
    DivModIs(PAGE_SIZE, Pow2(exponent), Pow2(12 - exponent), 0);
  }

  function AlignDown(x: nat, a: nat): nat
    requires a > 0
  {
    DivModSplit(x, a);
    x - x % a
  }

  /** The starting LBA of a command: an `int` holds it before it becomes the command's 64-bit field. */
  function StartLba(index: nat): nat {
    ToInt32(index) % TWO_TO_THE_64
  }

  /** The conversion through `int` is harmless for the LBAs that an `int` can hold, and for no others. */
  lemma StartLbaIsIndexIff(index: nat)
    requires index < 0x8000_0000_0000_0000
    ensures StartLba(index) == index <==> index < TWO_TO_THE_31
  {}

  /** A read or a write: block size, the (is-write, LBA) commands that fail, and the bytes asked for. */
  datatype TransferFields = TransferOf(lba: nat, faults: set<(bool, nat)>, offset: nat, total: nat)
  type Transfer = t: TransferFields | t.lba > 0 && ValidLbaSize(t.lba) witness TransferOf(PAGE_SIZE, {}, 0, 0)

  /** The page buffer of a transfer: NULL, or one page. */
  datatype Page = Null | Allocated(bytes: seq<byte>)

  /** What a write comes to: it returns, or it copies into a page buffer that nothing has allocated. */
  datatype WriteResult = Written(n: nat) | NullCopy

  /** The bytes that one page command serves at `pos`: the rest of the page that starts at the LBA of `pos`. */
  function ChunkLength(lba: nat, pos: nat, left: nat): nat
    requires ValidLbaSize(lba)
  {
    LbaDividesPage(lba);
    Min(PAGE_SIZE - pos % lba, left)
  }

  lemma LbaDividesPage(lba: nat)
    requires ValidLbaSize(lba)
    ensures lba <= PAGE_SIZE && PAGE_SIZE == PAGE_SIZE / lba * lba
  {
    MultipleIsLarge(PAGE_SIZE / lba, lba);
  }

  /** How many of `total` bytes at `offset` are moved when the walk stops at the first chunk that `ok` refuses. */
  function Served(lba: nat, ok: (nat, nat) -> bool, offset: nat, total: nat, done: nat): (n: nat)
    requires ValidLbaSize(lba) && done <= total
    ensures done <= n <= total
    decreases total - done
  {
    LbaDividesPage(lba);
    if done == total then total
    else
      var length := ChunkLength(lba, offset + done, total - done);
      if ok(offset + done, length) then Served(lba, ok, offset, total, done + length) else done
  }

  /** The first byte of logical block `start`. */
  function ByteOf(lba: nat, start: nat): nat {
    ProductOfNats(start, lba);
    start * lba
  }

  predicate Aligned(lba: nat, pos: nat)
    requires lba > 0
  {
    pos % lba == 0
  }

  /** The controller carries out a page command: its blocks exist, and no fault strikes it. */
  predicate Accepts(lba: nat, faults: set<(bool, nat)>, size: nat, write: bool, start: nat) {
    ByteOf(lba, start) + PAGE_SIZE <= size && (write, start) !in faults
  }

  /** The commands for a chunk of a write succeed: a partial page is read first. */
  predicate ChunkAccepted(lba: nat, faults: set<(bool, nat)>, size: nat, start: nat, length: nat) {
    && (length < PAGE_SIZE ==> Accepts(lba, faults, size, false, start))
    && Accepts(lba, faults, size, true, start)
  }

  /** The chunk at `pos` can be read ... */
  function ReadOk(lba: nat, faults: set<(bool, nat)>, size: nat): (nat, nat) -> bool
    requires lba > 0
  {
    (pos: nat, length: nat) => Accepts(lba, faults, size, false, StartLba(BlockOf(lba, pos)))
  }

  /** ... and written. */
  function WriteOk(lba: nat, faults: set<(bool, nat)>, size: nat): (nat, nat) -> bool
    requires lba > 0
  {
    (pos: nat, length: nat) => ChunkAccepted(lba, faults, size, StartLba(BlockOf(lba, pos)), length)
  }

  function BlockOf(lba: nat, pos: nat): nat
    requires lba > 0
  {
    DivModSplit(pos, lba);
    pos / lba
  }

  /** Every LBA of the range fits the `int` that the driver keeps it in. */
  predicate InReach(lba: nat, offset: nat, total: nat) {
    offset + total <= TWO_TO_THE_31 * lba
  }

  /** Within reach, the command for the chunk at `pos` starts at the logical block of `pos`. */
  lemma ChunkStart(lba: nat, offset: nat, total: nat, pos: nat)
    requires lba > 0 && offset <= pos < offset + total
    ensures AlignDown(pos, lba) / lba == BlockOf(lba, pos)
    ensures AlignDown(pos, lba) == BlockOf(lba, pos) * lba
    ensures InReach(lba, offset, total) ==> StartLba(BlockOf(lba, pos)) == BlockOf(lba, pos)
    ensures InReach(lba, offset, total) ==> StartLba(AlignDown(pos, lba) / lba) * lba == AlignDown(pos, lba)
  {
    DivModSplit(pos, lba);
    DivModIs(AlignDown(pos, lba), lba, BlockOf(lba, pos), 0);
    assert InReach(lba, offset, total) ==> BlockOf(lba, pos) < TWO_TO_THE_31 by {
      DivBelow(pos, lba, TWO_TO_THE_31);
    }
    hide *;
    if BlockOf(lba, pos) < TWO_TO_THE_31 {
      StartLbaIsIndexIff(BlockOf(lba, pos));
    }
  }

  /** After a whole chunk the position is at a block boundary, unless the transfer is over: only the first chunk of
      a transfer can start inside a block. */
  lemma ChunkEndsAligned(lba: nat, pos: nat, left: nat)
    requires ValidLbaSize(lba)
    ensures ChunkLength(lba, pos, left) == left || (pos + ChunkLength(lba, pos, left)) % lba == 0
  {
    LbaDividesPage(lba);
    var q, r := pos / lba, pos % lba;
    DivModSplit(pos, lba);
    assert pos + (PAGE_SIZE - r) == (q + PAGE_SIZE / lba) * lba + 0;
    DivModIs(pos + (PAGE_SIZE - r), lba, q + PAGE_SIZE / lba, 0);
  }

  /** The arithmetic of one pass of either loop, against the chunk it is meant to serve. */
  lemma PassServesChunk(lba: nat, offset: nat, total: nat, done: nat)
    requires ValidLbaSize(lba) && done < total
    requires done == 0 || (offset + done) % lba == 0
    ensures var start := AlignDown(offset + done, lba);
            var inPage := done + offset - start;
            var length := if inPage > 0 then Min(PAGE_SIZE - (offset - start), total) else Min(PAGE_SIZE, total - done);
            && inPage == (offset + done) % lba
            && length == ChunkLength(lba, offset + done, total - done)
            && 0 < length <= total - done && inPage + length <= PAGE_SIZE
            && (done + length == total || (offset + (done + length)) % lba == 0)
            && (length == PAGE_SIZE <==> inPage == 0 && total - done >= PAGE_SIZE)
  {
    LbaDividesPage(lba);
    DivModSplit(offset + done, lba);
    ChunkEndsAligned(lba, offset + done, total - done);
  }

  lemma ReadStep(t: Transfer, size: nat, done: nat)
    requires done < t.total
    ensures var length := ChunkLength(t.lba, t.offset + done, t.total - done); 0 < length <= t.total - done
    ensures Served(t.lba, ReadOk(t.lba, t.faults, size), t.offset, t.total, done)
         == if Accepts(t.lba, t.faults, size, false, StartLba(BlockOf(t.lba, t.offset + done)))
            then Served(t.lba, ReadOk(t.lba, t.faults, size), t.offset, t.total,
                        done + ChunkLength(t.lba, t.offset + done, t.total - done))
            else done
  {
    LbaDividesPage(t.lba);
  }

  lemma WriteStep(t: Transfer, size: nat, done: nat)
    requires done < t.total
    ensures var length := ChunkLength(t.lba, t.offset + done, t.total - done); 0 < length <= t.total - done
    ensures Served(t.lba, WriteOk(t.lba, t.faults, size), t.offset, t.total, done)
         == if ChunkAccepted(t.lba, t.faults, size, StartLba(BlockOf(t.lba, t.offset + done)),
                             ChunkLength(t.lba, t.offset + done, t.total - done))
            then Served(t.lba, WriteOk(t.lba, t.faults, size), t.offset, t.total,
                        done + ChunkLength(t.lba, t.offset + done, t.total - done))
            else done
  {
    LbaDividesPage(t.lba);
  }

  /** `data` stands in the namespace at `t.offset`. */
  predicate StandsAt(device: seq<byte>, offset: nat, data: seq<byte>) {
    data != [] ==> offset + |data| <= |device| && device[offset..offset + |data|] == data
  }

  /** `device` is `before` with `data` at `offset`. */
  predicate Patched(before: seq<byte>, device: seq<byte>, offset: nat, data: seq<byte>) {
    if data == [] then device == before
    else offset + |data| <= |before| && device == Splice(before, offset, data)
  }

  lemma StandsFurther(device: seq<byte>, offset: nat, data: seq<byte>, page: seq<byte>, start: nat, inPage: nat, n: nat)
    requires StandsAt(device, offset, data) && start + PAGE_SIZE <= |device|
    requires page == device[start..start + PAGE_SIZE] && inPage + n <= PAGE_SIZE && start + inPage == offset + |data|
    ensures StandsAt(device, offset, data + page[inPage..inPage + n])
  {
    var all := data + page[inPage..inPage + n];
    forall k | 0 <= k < |all|
      ensures device[offset + k] == all[k]
    {
      if k < |data| {
        assert data[k] == device[offset..offset + |data|][k];
      } else {
        assert all[k] == page[inPage + (k - |data|)] == device[start + (inPage + (k - |data|))];
      }
    }
    assert all != [] ==> device[offset..offset + |all|] == all;
  }

  /** Read, overlay, write back: the namespace changes at the overlaid bytes alone. */
  lemma OverlayChangesChunk(device: seq<byte>, page: seq<byte>, start: nat, inPage: nat, chunk: seq<byte>)
    requires |page| == PAGE_SIZE && start + PAGE_SIZE <= |device| && inPage + |chunk| <= PAGE_SIZE
    requires |chunk| < PAGE_SIZE ==> page == device[start..start + PAGE_SIZE]
    ensures Splice(device, start, Splice(page, inPage, chunk)) == Splice(device, start + inPage, chunk)
  {}

  lemma PatchedFurther(before: seq<byte>, device: seq<byte>, offset: nat, data: seq<byte>, chunk: seq<byte>)
    requires Patched(before, device, offset, data) && chunk != [] && offset + |data| + |chunk| <= |before|
    ensures |device| == |before|
    ensures Patched(before, Splice(device, offset + |data|, chunk), offset, data + chunk)
  {
    var all := data + chunk;
    var once, twice := Splice(before, offset, all), Splice(device, offset + |data|, chunk);
    forall k | 0 <= k < |before|
      ensures twice[k] == once[k]
    {
      if offset <= k < offset + |all| {
        assert all[k - offset] == if k < offset + |data| then data[k - offset] else chunk[k - offset - |data|];
      }
    }
    assert twice == once;
  }

  class Namespace {
    const lba: nat
    /** The (is-write, LBA) commands that the controller fails, leaving everything as it was. */
    const faults: set<(bool, nat)>
    var device: seq<byte>

    constructor (lba: nat, faults: set<(bool, nat)>, device: seq<byte>)
      ensures this.lba == lba && this.faults == faults && this.device == device
    {
      this.lba, this.faults, this.device := lba, faults, device;
    }

    /** `namespace_rw_page`. */
    method RwPage(write: bool, start: nat, page: Page) returns (ok: bool, page': Page)
      requires ValidLbaSize(lba) && (page.Allocated? ==> |page.bytes| == PAGE_SIZE)
      modifies this`device
      ensures ok == Accepts(lba, faults, |old(device)|, write, start)
      ensures page'.Allocated? && |page'.bytes| == PAGE_SIZE && |device| == |old(device)|
      ensures write && page.Allocated? ==> page' == page
      ensures !write || !ok ==> device == old(device)
      ensures ok ==> ByteOf(lba, start) + PAGE_SIZE <= |device|
      ensures !write && ok ==> page'.bytes == device[ByteOf(lba, start)..ByteOf(lba, start) + PAGE_SIZE]
      ensures write && ok ==> device == Splice(old(device), ByteOf(lba, start), page'.bytes)
    {
      page' := if page.Null? then Allocated(seq(PAGE_SIZE, _ => 0)) else page;
      ok := Accepts(lba, faults, |device|, write, start);
      if ok {
        if write {
          device := Splice(device, ByteOf(lba, start), page'.bytes);
        } else {
          page' := Allocated(device[ByteOf(lba, start)..ByteOf(lba, start) + PAGE_SIZE]);
        }
      }
    }

    /** The first lines of either loop: the start of the command for the next chunk, the chunk's place in the page,
        and its length. */
    method NextChunk(offset: nat, total: nat, done: nat) returns (start: nat, inPage: nat, length: nat)
      requires ValidLbaSize(lba) && lba > 0 && done < total && (done == 0 || Aligned(lba, offset + done))
      ensures start == StartLba(BlockOf(lba, offset + done))
      ensures length == ChunkLength(lba, offset + done, total - done) > 0
      ensures done + length <= total && inPage + length <= PAGE_SIZE
      ensures done + length == total || Aligned(lba, offset + (done + length))
      ensures length == PAGE_SIZE <==> Aligned(lba, offset + done) && total - done >= PAGE_SIZE
      ensures InReach(lba, offset, total) ==> ByteOf(lba, start) + inPage == offset + done
    {
      PassServesChunk(lba, offset, total, done);
      ChunkStart(lba, offset, total, offset + done);
      var lower := AlignDown(offset + done, lba);
      inPage := done + offset - lower;
      length := Min(PAGE_SIZE, total - done);
      if inPage > 0 {
        length := PAGE_SIZE - (offset - lower);
        length := Min(length, total);
      }
      start := StartLba(lower / lba);
    }

    /** `read_nvme_namespace`; `total` is the product of its `size` and `count`. */
    method Read(buffer: array<byte>, total: nat, offset: nat) returns (read: nat)
      requires ValidLbaSize(lba) && lba > 0 && total <= buffer.Length
      modifies this`device, buffer
      ensures device == old(device)
      ensures read == Served(lba, ReadOk(lba, faults, |device|), offset, total, 0)
      ensures InReach(lba, offset, total) ==> StandsAt(device, offset, buffer[..read])
      ensures buffer[read..] == old(buffer[..])[read..]
    {
      hide *;
      ghost var before := buffer[..];
      read := 0;
      var page := Null;
      ReadStarts(TransferOf(lba, faults, offset, total), device, before);
      while read < total
        invariant device == old(device) && (page.Allocated? ==> |page.bytes| == PAGE_SIZE)
        invariant read <= total && |before| == buffer.Length
        invariant ReadState(TransferOf(lba, faults, offset, total), device, before, buffer[..], read)
      {
        ReadAligned(TransferOf(lba, faults, offset, total), device, before, buffer[..], read);
        var start, inPage, toRead := NextChunk(offset, total, read);
        var done;
        done, page := RwPage(false, start, page);
        if !done {
          ReadStops(TransferOf(lba, faults, offset, total), device, before, buffer[..], read);
          break;
        }
        ReadAdvances(TransferOf(lba, faults, offset, total), device, before, buffer[..], read,
                     page.bytes, start, inPage, toRead);
        CopyIn(buffer, read, page.bytes[inPage..inPage + toRead]);
        read := read + toRead;
      }
      ReadEnds(TransferOf(lba, faults, offset, total), device, before, buffer[..], read);
      assert buffer[..][..read] == buffer[..read] && buffer[..][read..] == buffer[read..];
    }

    /** The page commands of one pass of the write: read unless the page is replaced whole, overlay, write back. */
    method PatchPage(start: nat, inPage: nat, chunk: seq<byte>, page: Page) returns (stray: bool, ok: bool, page': Page)
      requires ValidLbaSize(lba) && (page.Allocated? ==> |page.bytes| == PAGE_SIZE)
      requires 0 < |chunk| && inPage + |chunk| <= PAGE_SIZE
      modifies this`device
      ensures |device| == |old(device)|
      ensures stray <==> page.Null? && |chunk| == PAGE_SIZE
      ensures stray ==> !ok
      ensures !stray ==>
                && page'.Allocated? && |page'.bytes| == PAGE_SIZE
                && (ok <==> ChunkAccepted(lba, faults, |device|, start, |chunk|))
      ensures ok ==> ByteOf(lba, start) + PAGE_SIZE <= |device|
      ensures ok ==> device == Splice(old(device), ByteOf(lba, start) + inPage, chunk)
      ensures !ok ==> device == old(device)
    {
      stray, ok, page' := false, false, page;
      if |chunk| < PAGE_SIZE {
        ok, page' := RwPage(false, start, page);
        if !ok {
          return;
        }
      }
      if page'.Null? {
        return true, false, page';
      }
      ghost var held := page'.bytes;
      page' := Allocated(Splice(page'.bytes, inPage, chunk));
      ok, page' := RwPage(true, start, page');
      if ok {
        OverlayChangesChunk(old(device), held, ByteOf(lba, start), inPage, chunk);
      }
    }

    /** One pass of the write; `moved == 0` when it stops here. */
    method WritePass(ghost before: seq<byte>, data: seq<byte>, total: nat, offset: nat, written: nat, page: Page)
      returns (stray: bool, moved: nat, page': Page)
      requires ValidLbaSize(lba) && lba > 0 && (page.Allocated? ==> |page.bytes| == PAGE_SIZE)
      requires written < total && WriteState(TransferOf(lba, faults, offset, total), before, device, data, written)
      modifies this`device
      ensures stray <==> page.Null? && Aligned(lba, offset + written) && total - written >= PAGE_SIZE
      ensures !stray ==> page'.Allocated? && |page'.bytes| == PAGE_SIZE
      ensures written + moved <= total
      ensures moved == 0 ==> device == old(device)
      ensures moved == 0 && !stray ==>
                WriteOutcome(TransferOf(lba, faults, offset, total), before, device, data, written)
      ensures moved > 0 ==>
                !stray && WriteState(TransferOf(lba, faults, offset, total), before, device, data, written + moved)
    {
      hide *;
      WriteAligned(TransferOf(lba, faults, offset, total), before, device, data, written);
      var start, inPage, toWrite := NextChunk(offset, total, written);
      ghost var now := device;
      var ok;
      stray, ok, page' := PatchPage(start, inPage, data[written..written + toWrite], page);
      if ok {
        WriteAdvances(TransferOf(lba, faults, offset, total), before, now, data, written, ByteOf(lba, start) + inPage,
                      toWrite);
        moved := toWrite;
      } else {
        if !stray {
          WriteStops(TransferOf(lba, faults, offset, total), before, device, data, written);
        }
        moved := 0;
      }
    }

    /** `write_nvme_namespace`.  Shipped: the page buffer is allocated by the first page command.  Repair: it is
        allocated before the loop. */
    method Write(rev: Revision, buffer: array<byte>, total: nat, offset: nat) returns (result: WriteResult)
      requires ValidLbaSize(lba) && lba > 0 && total <= buffer.Length
      modifies this`device
      ensures result.NullCopy? <==> rev.AsShipped? && Aligned(lba, offset) && total >= PAGE_SIZE
      ensures result.NullCopy? ==> device == old(device)
      ensures result.Written? ==>
                WriteOutcome(TransferOf(lba, faults, offset, total), old(device), device, buffer[..], result.n)
    {
      assert PAGE_SIZE == 4096;
      hide *;
      ghost var before := device;
      var written := 0;
      var page := if rev.Repaired? then Allocated(seq(PAGE_SIZE, _ => 0)) else Null;
      WriteStarts(TransferOf(lba, faults, offset, total), before, buffer[..]);
      while written < total
        invariant written <= total && (page.Allocated? ==> |page.bytes| == PAGE_SIZE)
        invariant page.Null? <==> written == 0 && rev.AsShipped?
        invariant rev.AsShipped? && Aligned(lba, offset) && total >= PAGE_SIZE ==> written == 0
        invariant written == 0 ==> device == before
        invariant WriteState(TransferOf(lba, faults, offset, total), before, device, buffer[..], written)
      {
        assert written == 0 ==> offset + written == offset;
        var stray, moved;
        stray, moved, page := WritePass(before, buffer[..], total, offset, written, page);
        if stray {
          return NullCopy;
        }
        if moved == 0 {
          return Written(written);
        }
        written := written + moved;
      }
      WriteEnds(TransferOf(lba, faults, offset, total), before, device, buffer[..]);
      return Written(written);
    }
  }

  // ---------------------------------------------------------------- the loops' invariants

  ghost predicate ReadState(t: Transfer, device: seq<byte>, before: seq<byte>, buffer: seq<byte>, read: nat) {
    var ok := ReadOk(t.lba, t.faults, |device|);
    && read <= t.total <= |buffer| == |before|
    && (read == 0 || read == t.total || Aligned(t.lba, t.offset + read))
    && Served(t.lba, ok, t.offset, t.total, 0) == Served(t.lba, ok, t.offset, t.total, read)
    && (InReach(t.lba, t.offset, t.total) ==> StandsAt(device, t.offset, buffer[..read]))
    && buffer[read..] == before[read..]
  }

  lemma ReadStarts(t: Transfer, device: seq<byte>, before: seq<byte>)
    requires t.total <= |before|
    ensures ReadState(t, device, before, before, 0)
  {}

  lemma ReadAligned(t: Transfer, device: seq<byte>, before: seq<byte>, buffer: seq<byte>, read: nat)
    requires ReadState(t, device, before, buffer, read)
    ensures read == 0 || read == t.total || Aligned(t.lba, t.offset + read)
  {}

  /** The loop left at a refused chunk: nothing more is served. */
  lemma ReadStops(t: Transfer, device: seq<byte>, before: seq<byte>, buffer: seq<byte>, read: nat)
    requires ReadState(t, device, before, buffer, read)
    requires read < t.total && !Accepts(t.lba, t.faults, |device|, false, StartLba(BlockOf(t.lba, t.offset + read)))
    ensures Served(t.lba, ReadOk(t.lba, t.faults, |device|), t.offset, t.total, read) == read
  {
    ReadStep(t, |device|, read);
  }

  lemma ReadAdvances(t: Transfer, device: seq<byte>, before: seq<byte>, buffer: seq<byte>, read: nat, page: seq<byte>,
                     start: nat, inPage: nat, n: nat)
    requires ReadState(t, device, before, buffer, read)
    requires read < t.total && n == ChunkLength(t.lba, t.offset + read, t.total - read) && read + n <= t.total
    requires read + n == t.total || Aligned(t.lba, t.offset + (read + n))
    requires start == StartLba(BlockOf(t.lba, t.offset + read)) && Accepts(t.lba, t.faults, |device|, false, start)
    requires page == device[ByteOf(t.lba, start)..ByteOf(t.lba, start) + PAGE_SIZE] && inPage + n <= PAGE_SIZE
    requires InReach(t.lba, t.offset, t.total) ==> ByteOf(t.lba, start) + inPage == t.offset + read
    ensures ReadState(t, device, before, Splice(buffer, read, page[inPage..inPage + n]), read + n)
  {
    ReadStep(t, |device|, read);
    var chunk := page[inPage..inPage + n];
    assert Splice(buffer, read, chunk)[..read + n] == buffer[..read] + chunk;
    assert Splice(buffer, read, chunk)[read + n..] == buffer[read..][n..] == before[read..][n..];
    if InReach(t.lba, t.offset, t.total) {
      StandsFurther(device, t.offset, buffer[..read], page, ByteOf(t.lba, start), inPage, n);
    }
  }

  lemma ReadEnds(t: Transfer, device: seq<byte>, before: seq<byte>, buffer: seq<byte>, read: nat)
    requires ReadState(t, device, before, buffer, read)
    requires read == t.total || Served(t.lba, ReadOk(t.lba, t.faults, |device|), t.offset, t.total, read) == read
    ensures read == Served(t.lba, ReadOk(t.lba, t.faults, |device|), t.offset, t.total, 0)
    ensures InReach(t.lba, t.offset, t.total) ==> StandsAt(device, t.offset, buffer[..read])
    ensures buffer[read..] == before[read..]
  {}

  ghost predicate WriteState(t: Transfer, before: seq<byte>, device: seq<byte>, buffer: seq<byte>, written: nat) {
    var ok := WriteOk(t.lba, t.faults, |before|);
    && written <= t.total <= |buffer| && |device| == |before|
    && (written == 0 || written == t.total || Aligned(t.lba, t.offset + written))
    && Served(t.lba, ok, t.offset, t.total, 0) == Served(t.lba, ok, t.offset, t.total, written)
    && (InReach(t.lba, t.offset, t.total) ==> Patched(before, device, t.offset, buffer[..written]))
  }

  /** What a write that returns has done: exactly the chunks before the first refused one are in the namespace, and
      nothing else has changed. */
  ghost predicate WriteOutcome(t: Transfer, before: seq<byte>, device: seq<byte>, buffer: seq<byte>, n: nat) {
    && n == Served(t.lba, WriteOk(t.lba, t.faults, |before|), t.offset, t.total, 0)
    && n <= |buffer|
    && (InReach(t.lba, t.offset, t.total) ==> Patched(before, device, t.offset, buffer[..n]))
  }

  lemma WriteStarts(t: Transfer, before: seq<byte>, buffer: seq<byte>)
    requires t.total <= |buffer|
    ensures WriteState(t, before, before, buffer, 0)
  {}

  lemma WriteAligned(t: Transfer, before: seq<byte>, device: seq<byte>, buffer: seq<byte>, written: nat)
    requires WriteState(t, before, device, buffer, written)
    ensures |device| == |before| && written <= t.total <= |buffer|
    ensures written == 0 || written == t.total || Aligned(t.lba, t.offset + written)
  {}

  lemma WriteStops(t: Transfer, before: seq<byte>, device: seq<byte>, buffer: seq<byte>, written: nat)
    requires WriteState(t, before, device, buffer, written)
    requires written < t.total
    requires !ChunkAccepted(t.lba, t.faults, |before|, StartLba(BlockOf(t.lba, t.offset + written)),
                            ChunkLength(t.lba, t.offset + written, t.total - written))
    ensures WriteOutcome(t, before, device, buffer, written)
  {
    WriteStep(t, |before|, written);
  }

  lemma WriteAdvances(t: Transfer, before: seq<byte>, device: seq<byte>, buffer: seq<byte>, written: nat,
                      at: nat, n: nat)
    requires WriteState(t, before, device, buffer, written)
    requires written < t.total && written + n <= t.total && at + n <= |device|
    requires 0 < n == ChunkLength(t.lba, t.offset + written, t.total - written)
    requires written + n == t.total || Aligned(t.lba, t.offset + (written + n))
    requires ChunkAccepted(t.lba, t.faults, |before|, StartLba(BlockOf(t.lba, t.offset + written)), n)
    requires InReach(t.lba, t.offset, t.total) ==> at == t.offset + written
    ensures WriteState(t, before, Splice(device, at, buffer[written..written + n]), buffer, written + n)
  {
    hide *;
    WriteParts(t, before, device, buffer, written);
    var chunk := buffer[written..written + n];
    ChunkServed(t, |before|, written, n);
    assert buffer[..written] + chunk == buffer[..written + n];
    if InReach(t.lba, t.offset, t.total) {
      PatchedFurther(before, device, t.offset, buffer[..written], chunk);
    }
    WriteParts(t, before, Splice(device, at, chunk), buffer, written + n);
  }

  /** `WriteState` spelt out. */
  lemma WriteParts(t: Transfer, before: seq<byte>, device: seq<byte>, buffer: seq<byte>, written: nat)
    ensures WriteState(t, before, device, buffer, written) <==>
              && written <= t.total <= |buffer| && |device| == |before|
              && (written == 0 || written == t.total || Aligned(t.lba, t.offset + written))
              && Served(t.lba, WriteOk(t.lba, t.faults, |before|), t.offset, t.total, 0)
                 == Served(t.lba, WriteOk(t.lba, t.faults, |before|), t.offset, t.total, written)
              && (InReach(t.lba, t.offset, t.total) ==> Patched(before, device, t.offset, buffer[..written]))
  {}

  lemma ChunkServed(t: Transfer, size: nat, written: nat, n: nat)
    requires written < t.total && n == ChunkLength(t.lba, t.offset + written, t.total - written)
    requires ChunkAccepted(t.lba, t.faults, size, StartLba(BlockOf(t.lba, t.offset + written)), n)
    ensures written + n <= t.total
    ensures Served(t.lba, WriteOk(t.lba, t.faults, size), t.offset, t.total, written)
         == Served(t.lba, WriteOk(t.lba, t.faults, size), t.offset, t.total, written + n)
  {
    WriteStep(t, size, written);
  }

  lemma WriteEnds(t: Transfer, before: seq<byte>, device: seq<byte>, buffer: seq<byte>)
    requires WriteState(t, before, device, buffer, t.total)
    ensures WriteOutcome(t, before, device, buffer, t.total)
  {}

  /** `memcpy` into the caller's buffer. */
  method CopyIn(buffer: array<byte>, at: nat, data: seq<byte>)
    requires at + |data| <= buffer.Length
    modifies buffer
    ensures buffer[..] == Splice(old(buffer[..]), at, data)
  {
    forall i | 0 <= i < |data| {
      buffer[at + i] := data[i];
    }
  }

  // ---------------------------------------------------------------- consequences

  /** Whole pages needed for `n` bytes. */
  function Pages(n: nat): nat {
    (n + PAGE_SIZE - 1) / PAGE_SIZE
  }

  /** Where the last page command of a transfer ends. */
  function LastPageEnd(lba: nat, pos: nat, left: nat): nat
    requires lba > 0
  {
    AlignDown(pos, lba) + Pages(pos % lba + left) * PAGE_SIZE
  }

  /** Without faults, a transfer inside the namespace is complete exactly when its last page command also ends inside
      it: every command moves a whole page, even when fewer blocks than that are left. */
  lemma TransferIsCompleteIff(lba: nat, size: nat, offset: nat, total: nat)
    requires ValidLbaSize(lba) && lba > 0 && total > 0 && InReach(lba, offset, total)
    ensures Served(lba, ReadOk(lba, {}, size), offset, total, 0) == total <==> LastPageEnd(lba, offset, total) <= size
    ensures Served(lba, WriteOk(lba, {}, size), offset, total, 0)
              == Served(lba, ReadOk(lba, {}, size), offset, total, 0)
  {
    RestIsCompleteIff(lba, size, offset, total, 0);
  }

  lemma {:induction false} RestIsCompleteIff(lba: nat, size: nat, offset: nat, total: nat, done: nat)
    requires ValidLbaSize(lba) && lba > 0 && done < total && InReach(lba, offset, total)
    ensures Served(lba, ReadOk(lba, {}, size), offset, total, done) == total
            <==> LastPageEnd(lba, offset + done, total - done) <= size
    ensures Served(lba, WriteOk(lba, {}, size), offset, total, done)
         == Served(lba, ReadOk(lba, {}, size), offset, total, done)
    decreases total - done
  {
    hide *;
    var pos, length := offset + done, ChunkLength(lba, offset + done, total - done);
    ReadStep(TransferOf(lba, {}, offset, total), size, done);
    WriteStep(TransferOf(lba, {}, offset, total), size, done);
    FaultlessChunk(lba, size, offset, total, pos, length);
    LastPageStep(lba, pos, total - done);
    if done + length < total {
      assert pos + length == offset + (done + length);
      RestIsCompleteIff(lba, size, offset, total, done + length);
    } else {
      AllServed(lba, size, offset, total);
    }
  }

  /** Without faults, the commands for a chunk succeed exactly when its page lies in the namespace. */
  lemma FaultlessChunk(lba: nat, size: nat, offset: nat, total: nat, pos: nat, length: nat)
    requires lba > 0 && offset <= pos < offset + total && InReach(lba, offset, total)
    ensures var start := StartLba(BlockOf(lba, pos));
            && (Accepts(lba, {}, size, false, start) <==> AlignDown(pos, lba) + PAGE_SIZE <= size)
            && (ChunkAccepted(lba, {}, size, start, length) <==> AlignDown(pos, lba) + PAGE_SIZE <= size)
  {
    ChunkStart(lba, offset, total, pos);
    hide StartLba, BlockOf, AlignDown, InReach;
  }

  lemma AllServed(lba: nat, size: nat, offset: nat, total: nat)
    requires ValidLbaSize(lba) && lba > 0
    ensures Served(lba, ReadOk(lba, {}, size), offset, total, total) == total
    ensures Served(lba, WriteOk(lba, {}, size), offset, total, total) == total
  {}

  lemma LastPageStep(lba: nat, pos: nat, left: nat)
    requires ValidLbaSize(lba) && lba > 0 && left > 0
    ensures var length := ChunkLength(lba, pos, left);
            && length <= left
            && LastPageEnd(lba, pos, left) >= AlignDown(pos, lba) + PAGE_SIZE
            && (length == left ==> LastPageEnd(lba, pos, left) == AlignDown(pos, lba) + PAGE_SIZE)
            && (length < left ==> LastPageEnd(lba, pos, left) == LastPageEnd(lba, pos + length, left - length))
  {
    LbaDividesPage(lba);
    DivModSplit(pos, lba);
    ChunkEndsAligned(lba, pos, left);
  }

  /** Reading back what was written: without faults the same number of bytes, and the bytes that were written. */
  lemma WriteThenRead(lba: nat, before: seq<byte>, device: seq<byte>, offset: nat, total: nat, buffer: seq<byte>,
                      n: nat)
    requires ValidLbaSize(lba) && lba > 0 && total > 0 && InReach(lba, offset, total)
    requires WriteOutcome(TransferOf(lba, {}, offset, total), before, device, buffer, n)
    ensures |device| == |before|
    ensures Served(lba, ReadOk(lba, {}, |device|), offset, total, 0) == n
    ensures StandsAt(device, offset, buffer[..n])
  {
    TransferIsCompleteIff(lba, |before|, offset, total);
  }

  /** The last half page of a namespace of whole pages, at 512-byte blocks: in range, and not readable. */
  lemma TailIsUnreadable(size: nat)
    requires PAGE_SIZE <= size <= TWO_TO_THE_31 * 512 && size % PAGE_SIZE == 0
    ensures Served(512, ReadOk(512, {}, size), size - 2048, 2048, 0) < 2048
  {
    TailPageEnd(size);
    assert ValidLbaSize(512) && InReach(512, size - 2048, 2048);
    hide *;
    TransferIsCompleteIff(512, size, size - 2048, 2048);
  }

  lemma TailPageEnd(size: nat)
    requires PAGE_SIZE <= size && size % PAGE_SIZE == 0
    ensures LastPageEnd(512, size - 2048, 2048) == size + 2048
  {
    var pages := size / PAGE_SIZE;
    assert size - 2048 == (8 * pages - 4) * 512 + 0;
    DivModIs(size - 2048, 512, 8 * pages - 4, 0);
    assert Pages(2048) == 1;
  }
}
