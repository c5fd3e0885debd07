// The initramfs: a cpio archive in the old binary format, scanned for a file by name and read in place.

module Cpio {
  import opened Bytes
  import opened Options

  const HEADER: nat := 26
  const MAGIC: nat := 0x71C7

  /** A file of an archive: the header words before the name size, but for the magic, and the two byte strings. */
  datatype File = File(device: nat, inode: nat, mode: nat, uid: nat, gid: nat, nlink: nat, rdev: nat, modTime: nat,
                       name: seq<byte>, data: seq<byte>)

  predicate NoNul(s: seq<byte>) {
    0 !in s
  }

  predicate ValidFile(f: File) {
    && f.device < 0x1_0000 && f.inode < 0x1_0000 && f.mode < 0x1_0000 && f.uid < 0x1_0000 && f.gid < 0x1_0000
    && f.nlink < 0x1_0000 && f.rdev < 0x1_0000 && f.modTime < TWO_TO_THE_32
    && NoNul(f.name) && |f.name| + 1 < 0x1_0000
    && |f.data| < TWO_TO_THE_32
  }

  predicate ValidFiles(files: seq<File>) {
    forall i | 0 <= i < |files| :: ValidFile(files[i])
  }

  /** Sizes that survive the driver's `int` arithmetic. */
  predicate IntSized(f: File) {
    |f.data| < TWO_TO_THE_31 - 1
  }

  predicate AllIntSized(files: seq<File>) {
    forall i | 0 <= i < |files| :: IntSized(files[i])
  }

  // ---------------------------------------------------------------- the format

  predicate AreWords(ws: seq<nat>) {
    forall k | 0 <= k < |ws| :: ws[k] < 0x1_0000
  }

  /** Little-endian halfwords, one after the other. */
  function EncodeWords(ws: seq<nat>): (s: seq<byte>)
    requires AreWords(ws)
    ensures |s| == 2 * |ws|
  {
    if ws == [] then [] else U16(ws[0]) + EncodeWords(ws[1..])
  }

  function Even(n: nat): nat {
    n + n % 2
  }

  function Pad(s: seq<byte>): (r: seq<byte>)
    ensures |r| == Even(|s|)
  {
    if |s| % 2 == 0 then s else s + [0]
  }

  /** The words of a header; a 32-bit number takes two, the high one first. */
  function HeaderWords(f: File): (ws: seq<nat>)
    requires ValidFile(f)
    ensures AreWords(ws) && |ws| == 13
  {
    [MAGIC, f.device, f.inode, f.mode, f.uid, f.gid, f.nlink, f.rdev,
     f.modTime / 0x1_0000, f.modTime % 0x1_0000, |f.name| + 1, |f.data| / 0x1_0000, |f.data| % 0x1_0000]
  }

  function EncodeHeader(f: File): (h: seq<byte>)
    requires ValidFile(f)
    ensures |h| == HEADER
  {
    EncodeWords(HeaderWords(f))
  }

  /** One entry: header, NUL-terminated name and data, both padded to even length with a zero byte. */
  function EncodeFile(f: File): (b: seq<byte>)
    requires ValidFile(f)
    ensures |b| == HEADER + Even(|f.name| + 1) + Even(|f.data|)
  {
    EncodeHeader(f) + Pad(f.name + [0]) + Pad(f.data)
  }

  function Encode(files: seq<File>): seq<byte>
    requires ValidFiles(files)
  {
    if files == [] then [] else EncodeFile(files[0]) + Encode(files[1..])
  }

  // ---------------------------------------------------------------- the driver's view of a header

  function NameSize(fs: seq<byte>, at: nat): nat
    requires at + HEADER <= |fs|
  {
    U16At(fs, at + 20)
  }

  /** `ARC_DATA_OFFSET`. */
  function DataOffset(fs: seq<byte>, at: nat): nat
    requires at + HEADER <= |fs|
  {
    HEADER + Even(NameSize(fs, at))
  }

  /** `ARC_DATA_SIZE`, an `int`: the high halfword shifted by 16, the low one or-ed in, the lowest bit added. */
  function DataSizeOf(high: nat, low: nat): int
    requires high < 0x1_0000 && low < 0x1_0000
  {
    var size := ToInt32(high * 0x1_0000 + low);
    ToInt32(size + size % 2)
  }

  function DataSize(fs: seq<byte>, at: nat): int
    requires at + HEADER <= |fs|
  {
    DataSizeOf(U16At(fs, at + 22), U16At(fs, at + 24))
  }

  /** What the scan adds to its offset to get past an entry. */
  function EntrySize(fs: seq<byte>, at: nat): int
    requires at + HEADER <= |fs|
  {
    DataOffset(fs, at) + DataSize(fs, at)
  }

  /** The macro gives the size rounded up to even exactly for sizes below 2 to the 31 less one. */
  lemma DataSizeIsRightIff(n: nat)
    requires n < TWO_TO_THE_32
    ensures DataSizeOf(n / 0x1_0000, n % 0x1_0000) == Even(n) <==> n < TWO_TO_THE_31 - 1
  {
    assert n / 0x1_0000 * 0x1_0000 + n % 0x1_0000 == n;
  }

  /** For a larger file the macro gives that size less 2 to the 32, which is zero or less: the scan's step ends before
      the file does. */
  lemma LargeSizeIsNotPositive(n: nat)
    requires TWO_TO_THE_31 - 1 <= n < TWO_TO_THE_32
    ensures DataSizeOf(n / 0x1_0000, n % 0x1_0000) == n + n % 2 - TWO_TO_THE_32 <= 0
  {
    var size := if n == TWO_TO_THE_31 - 1 then n else n - TWO_TO_THE_32;
    hide ToInt32;
    ToInt32Near(n);
    DataSizeFrom(n, size);
    ToInt32Near(size + size % 2);
  }

  lemma DataSizeFrom(n: nat, size: int)
    requires n < TWO_TO_THE_32 && ToInt32(n) == size
    ensures DataSizeOf(n / 0x1_0000, n % 0x1_0000) == ToInt32(size + size % 2)
  {
    hide ToInt32;
    assert n / 0x1_0000 * 0x1_0000 + n % 0x1_0000 == n;
  }

  // ---------------------------------------------------------------- an entry where it stands

  /** The bytes of `part` stand in `fs` at `at`. */
  predicate StandsAt(fs: seq<byte>, at: nat, part: seq<byte>) {
    at + |part| <= |fs| && fs[at..at + |part|] == part
  }

  lemma PartStands(fs: seq<byte>, at: nat, a: seq<byte>, b: seq<byte>)
    requires StandsAt(fs, at, a + b)
    ensures StandsAt(fs, at, a) && StandsAt(fs, at + |a|, b)
  {
    var whole := fs[at..at + |a| + |b|];
    assert whole[..|a|] == a && whole[|a|..] == b;
    assert fs[at..at + |a|] == whole[..|a|];
    assert fs[at + |a|..at + |a| + |b|] == whole[|a|..];
  }

  lemma {:induction false} WordStands(fs: seq<byte>, at: nat, ws: seq<nat>, k: nat)
    requires AreWords(ws) && k < |ws| && StandsAt(fs, at, EncodeWords(ws))
    ensures at + 2 * k + 2 <= |fs| && U16At(fs, at + 2 * k) == ws[k]
    decreases k
  {
    PartStands(fs, at, U16(ws[0]), EncodeWords(ws[1..]));
    if k == 0 {
      assert fs[at..at + 2][0] == fs[at] && fs[at..at + 2][1] == fs[at + 1];
    } else {
      WordStands(fs, at + 2, ws[1..], k - 1);
    }
  }

  /** The header words of an encoded file read back. */
  lemma HeaderStands(fs: seq<byte>, at: nat, f: File)
    requires ValidFile(f) && StandsAt(fs, at, EncodeHeader(f))
    ensures at + HEADER <= |fs| && U16At(fs, at) == MAGIC
    ensures U16At(fs, at + 2) == f.device && U16At(fs, at + 4) == f.inode && U16At(fs, at + 6) == f.mode
    ensures U16At(fs, at + 8) == f.uid && U16At(fs, at + 10) == f.gid && U16At(fs, at + 12) == f.nlink
    ensures U16At(fs, at + 14) == f.rdev
    ensures U16At(fs, at + 16) == f.modTime / 0x1_0000 && U16At(fs, at + 18) == f.modTime % 0x1_0000
    ensures NameSize(fs, at) == |f.name| + 1
    ensures U16At(fs, at + 22) == |f.data| / 0x1_0000 && U16At(fs, at + 24) == |f.data| % 0x1_0000
  {
    hide EncodeWords, StandsAt, U16At;
    var ws := HeaderWords(f);
    forall k | 0 <= k < |ws|
      ensures at + 2 * k + 2 <= |fs| && U16At(fs, at + 2 * k) == ws[k]
    {
      WordStands(fs, at, ws, k);
    }
    assert at + 2 * 12 + 2 <= |fs|;
    assert U16At(fs, at + 2 * 0) == ws[0] && U16At(fs, at + 2 * 1) == ws[1] && U16At(fs, at + 2 * 2) == ws[2];
    assert U16At(fs, at + 2 * 3) == ws[3] && U16At(fs, at + 2 * 4) == ws[4] && U16At(fs, at + 2 * 5) == ws[5];
    assert U16At(fs, at + 2 * 6) == ws[6] && U16At(fs, at + 2 * 7) == ws[7] && U16At(fs, at + 2 * 8) == ws[8];
    assert U16At(fs, at + 2 * 9) == ws[9] && U16At(fs, at + 2 * 10) == ws[10];
    assert U16At(fs, at + 2 * 11) == ws[11] && U16At(fs, at + 2 * 12) == ws[12];
  }

  /** Its bytes: the magic number is octal 070707, and of a 32-bit number the high halfword comes first. */
  lemma HeaderBytes(f: File)
    requires ValidFile(f)
    ensures var h := EncodeHeader(f);
            && h[0] == 0xC7 && h[1] == 0x71 && 0x71C7 == 7 * 0x1000 + 0 * 0x200 + 7 * 0x40 + 0 * 0x8 + 7
            && h[2] as int + 0x100 * h[3] as int == f.device
            && h[16] as int + 0x100 * h[17] as int == f.modTime / 0x1_0000
            && h[20] as int + 0x100 * h[21] as int == |f.name| + 1
            && h[22] as int + 0x100 * h[23] as int == |f.data| / 0x1_0000
            && h[24] as int + 0x100 * h[25] as int == |f.data| % 0x1_0000
  {
    var h := EncodeHeader(f);
    assert StandsAt(h, 0, h);
    HeaderStands(h, 0, f);
    hide EncodeHeader, StandsAt;
  }

  /** The three parts of an entry stand one after the other. */
  lemma PartsStand(fs: seq<byte>, at: nat, f: File)
    requires ValidFile(f) && StandsAt(fs, at, EncodeFile(f))
    ensures StandsAt(fs, at, EncodeHeader(f))
    ensures StandsAt(fs, at + HEADER, f.name + [0])
    ensures StandsAt(fs, at + (HEADER + Even(|f.name| + 1)), Pad(f.data))
  {
    var name := f.name + [0];
    assert EncodeFile(f) == (EncodeHeader(f) + Pad(name)) + Pad(f.data);
    hide *;
    PartStands(fs, at, EncodeHeader(f) + Pad(name), Pad(f.data));
    PartStands(fs, at, EncodeHeader(f), Pad(name));
    PaddedStands(fs, at + HEADER, name);
  }

  /** What the driver makes of the entry of `f` at `at`. */
  lemma FileStands(fs: seq<byte>, at: nat, f: File)
    requires ValidFile(f) && StandsAt(fs, at, EncodeFile(f))
    ensures at + HEADER <= |fs| && U16At(fs, at) == MAGIC
    ensures DataOffset(fs, at) == HEADER + Even(|f.name| + 1)
    ensures IntSized(f) ==> DataSize(fs, at) == Even(|f.data|)
    ensures StandsAt(fs, at + HEADER, f.name + [0])
    ensures StandsAt(fs, at + DataOffset(fs, at), Pad(f.data))
    ensures StandsAt(fs, at, EncodeHeader(f))
  {
    hide *;
    PartsStand(fs, at, f);
    HeaderStands(fs, at, f);
    SizesStand(fs, at, f);
  }

  lemma EntrySizeIs(fs: seq<byte>, at: nat, f: File)
    requires ValidFile(f) && IntSized(f) && StandsAt(fs, at, EncodeFile(f))
    ensures at + HEADER <= |fs| && EntrySize(fs, at) == |EncodeFile(f)|
  {
    hide EncodeFile, StandsAt, DataSize;
    FileStands(fs, at, f);
  }

  lemma PaddedStands(fs: seq<byte>, at: nat, part: seq<byte>)
    requires StandsAt(fs, at, Pad(part))
    ensures StandsAt(fs, at, part)
  {
    if |part| % 2 == 1 {
      PartStands(fs, at, part, [0]);
    }
  }

  lemma SizesStand(fs: seq<byte>, at: nat, f: File)
    requires ValidFile(f) && at + HEADER <= |fs| && NameSize(fs, at) == |f.name| + 1
    requires U16At(fs, at + 22) == |f.data| / 0x1_0000 && U16At(fs, at + 24) == |f.data| % 0x1_0000
    ensures DataOffset(fs, at) == HEADER + Even(|f.name| + 1)
    ensures IntSized(f) ==> DataSize(fs, at) == Even(|f.data|)
  {
    DataSizeIsRightIff(|f.data|);
  }

  // ---------------------------------------------------------------- the scan

  /** `strncmp(name, filename, strlen(filename)) == 0`, for the C string that starts at `at`. */
  predicate MatchesAt(fs: seq<byte>, at: nat, filename: seq<byte>)
    decreases |filename|
  {
    filename == [] || (at < |fs| && fs[at] == filename[0] && MatchesAt(fs, at + 1, filename[1..]))
  }

  lemma {:induction false} MatchIsPrefix(fs: seq<byte>, at: nat, name: seq<byte>, filename: seq<byte>)
    requires StandsAt(fs, at, name + [0]) && NoNul(filename)
    ensures MatchesAt(fs, at, filename) <==> filename <= name
    decreases |filename|
  {
    if filename != [] {
      assert fs[at] == fs[at..at + |name| + 1][0];
      if name != [] && name[0] == filename[0] {
        assert name + [0] == [name[0]] + (name[1..] + [0]);
        PartStands(fs, at, [name[0]], name[1..] + [0]);
        MatchIsPrefix(fs, at + 1, name[1..], filename[1..]);
        assert filename == [filename[0]] + filename[1..] && name == [name[0]] + name[1..];
      }
    }
  }

  /** The first lines of the search: one leading slash is dropped. */
  method Strip(filename: seq<byte>) returns (wanted: seq<byte>)
    ensures forall name | filename == [0x2F] + name :: wanted == name
    ensures filename == [] || filename[0] != 0x2F ==> wanted == filename
    ensures NoNul(filename) ==> NoNul(wanted)
  {
    wanted := filename;
    if filename != [] && filename[0] == 0x2F {
      wanted := filename[1..];
    }
    assert forall name: seq<byte> :: ([0x2F] + name)[1..] == name;
  }

  /** The first file whose name starts with `wanted`, or the number of files. */
  function FirstMatch(files: seq<File>, wanted: seq<byte>): (i: nat)
    ensures i <= |files|
    ensures i < |files| ==> wanted <= files[i].name
    ensures forall k | 0 <= k < i :: !(wanted <= files[k].name)
  {
    if files == [] || wanted <= files[0].name then 0 else 1 + FirstMatch(files[1..], wanted)
  }

  /** Where the `k`-th entry of an archive starts. */
  function EntryOffset(files: seq<File>, k: nat): nat
    requires ValidFiles(files) && k <= |files|
  {
    if k == 0 then 0 else |EncodeFile(files[0])| + EntryOffset(files[1..], k - 1)
  }

  lemma {:induction false} OffsetNext(files: seq<File>, k: nat)
    requires ValidFiles(files) && k < |files|
    ensures EntryOffset(files, k + 1) == EntryOffset(files, k) + |EncodeFile(files[k])|
    decreases k
  {
    hide EncodeFile;
    if k > 0 {
      assert files[1..][k - 1] == files[k];
      OffsetNext(files[1..], k - 1);
    } else {
      OffsetStart(files[1..]);
    }
  }

  /** `at` is where the `k`-th entry starts, and from there on stands the rest of the archive. */
  predicate RestAt(fs: seq<byte>, files: seq<File>, tail: seq<byte>, k: nat, at: nat)
    requires ValidFiles(files) && k <= |files|
  {
    at == EntryOffset(files, k) && StandsAt(fs, at, Encode(files[k..]) + tail)
  }

  lemma RestStarts(fs: seq<byte>, files: seq<File>, tail: seq<byte>)
    requires ValidFiles(files) && fs == Encode(files) + tail
    ensures RestAt(fs, files, tail, 0, 0)
  {
    hide EncodeFile;
    assert files[0..] == files;
    OffsetStart(files);
    WholeStands(fs);
  }

  lemma RestAdvances(fs: seq<byte>, files: seq<File>, tail: seq<byte>, k: nat, at: nat)
    requires ValidFiles(files) && k < |files| && RestAt(fs, files, tail, k, at)
    ensures StandsAt(fs, at, EncodeFile(files[k]))
    ensures RestAt(fs, files, tail, k + 1, at + |EncodeFile(files[k])|)
  {
    hide EncodeFile, StandsAt, Encode, EntryOffset;
    OffsetNext(files, k);
    EncodeStep(files[k..]);
    assert files[k..][1..] == files[k + 1..] && files[k..][0] == files[k];
    FirstPartStands(fs, at, EncodeFile(files[k]), Encode(files[k + 1..]), tail);
  }

  lemma OffsetStart(files: seq<File>)
    requires ValidFiles(files)
    ensures EntryOffset(files, 0) == 0
  {}

  lemma WholeStands(fs: seq<byte>)
    ensures StandsAt(fs, 0, fs)
  {}

  lemma EncodeStep(files: seq<File>)
    requires ValidFiles(files) && files != []
    ensures ValidFile(files[0]) && ValidFiles(files[1..])
    ensures Encode(files) == EncodeFile(files[0]) + Encode(files[1..])
  {
    hide EncodeFile;
  }

  lemma FirstPartStands(fs: seq<byte>, start: nat, a: seq<byte>, b: seq<byte>, c: seq<byte>)
    requires StandsAt(fs, start, (a + b) + c)
    ensures StandsAt(fs, start, a) && StandsAt(fs, start + |a|, b + c)
  {
    assert (a + b) + c == a + (b + c);
    PartStands(fs, start, a, b + c);
  }

  /** None of the first `k` files has a name that starts with `wanted`. */
  predicate NoneBefore(files: seq<File>, wanted: seq<byte>, k: nat)
    requires k <= |files|
  {
    forall j | 0 <= j < k :: !(wanted <= files[j].name)
  }

  lemma NoneBeforeStart(files: seq<File>, wanted: seq<byte>)
    ensures NoneBefore(files, wanted, 0)
  {}

  predicate StartsWith(f: File, wanted: seq<byte>) {
    wanted <= f.name
  }

  lemma NoneBeforeNext(files: seq<File>, wanted: seq<byte>, k: nat)
    requires k < |files|
    ensures NoneBefore(files, wanted, k + 1) <==> NoneBefore(files, wanted, k) && !StartsWith(files[k], wanted)
  {}

  lemma {:induction false} FirstMatchIs(files: seq<File>, wanted: seq<byte>, k: nat)
    requires k <= |files| && (k < |files| ==> StartsWith(files[k], wanted))
    requires NoneBefore(files, wanted, k)
    ensures FirstMatch(files, wanted) == k
    decreases k
  {
    if k > 0 {
      assert forall j | 0 <= j < k - 1 :: files[1..][j] == files[j + 1];
      FirstMatchIs(files[1..], wanted, k - 1);
    }
  }

  /** The result of a search: where the first file whose name starts with `wanted` stands, or nothing if there is
      none. */
  predicate Finds(fs: seq<byte>, files: seq<File>, wanted: seq<byte>, r: Option<nat>)
    requires ValidFiles(files)
  {
    var i := FirstMatch(files, wanted);
    if i < |files| then r == Some(EntryOffset(files, i)) && StandsAt(fs, EntryOffset(files, i), EncodeFile(files[i]))
    else r == None
  }

  lemma FindsHere(fs: seq<byte>, files: seq<File>, wanted: seq<byte>, k: nat)
    requires ValidFiles(files) && k <= |files| && NoneBefore(files, wanted, k)
    requires k < |files| ==> StartsWith(files[k], wanted) && StandsAt(fs, EntryOffset(files, k), EncodeFile(files[k]))
    ensures Finds(fs, files, wanted, if k < |files| then Some(EntryOffset(files, k)) else None)
  {
    FirstMatchIs(files, wanted, k);
  }

  /** `initramfs_find_file`, on an archive of `files` that a word other than the magic follows. */
  method FindFile(fs: seq<byte>, filename: seq<byte>, ghost files: seq<File>, ghost tail: seq<byte>)
    returns (r: Option<nat>)
    requires ValidFiles(files) && AllIntSized(files) && NoNul(filename)
    requires fs == Encode(files) + tail && |tail| >= 2 && U16At(tail, 0) != MAGIC
    ensures forall name | filename == [0x2F] + name :: Finds(fs, files, name, r)
    ensures filename == [] || filename[0] != 0x2F ==> Finds(fs, files, filename, r)
  {
    hide *;
    var wanted := Strip(filename);
    NoneBeforeStart(files, wanted);
    var offset: nat := 0;
    ghost var k: nat := 0;
    RestStarts(fs, files, tail);
    WordsAt(fs, files, tail, 0, 0);
    while U16At(fs, offset) == MAGIC
      invariant k <= |files| && RestAt(fs, files, tail, k, offset) && offset + 2 <= |fs|
      invariant U16At(fs, offset) == MAGIC <==> k < |files|
      invariant NoneBefore(files, wanted, k)
      decreases |files| - k
    {
      EntryAt(fs, files, tail, k, offset, wanted);
      ValidAt(files, k);
      EntrySizeIs(fs, offset, files[k]);
      RestAdvances(fs, files, tail, k, offset);
      NoneBeforeNext(files, wanted, k);
      if MatchesAt(fs, offset + HEADER, wanted) {
        FindsHere(fs, files, wanted, k);
        return Some(offset);
      }
      offset := offset + EntrySize(fs, offset);
      k := k + 1;
      WordsAt(fs, files, tail, k, offset);
    }
    FindsHere(fs, files, wanted, k);
    return None;
  }

  /** The first file of that very name, or the number of files. */
  function FirstNamed(files: seq<File>, name: seq<byte>): (i: nat)
    ensures i <= |files|
    ensures i < |files| ==> files[i].name == name
    ensures forall k | 0 <= k < i :: files[k].name != name
  {
    if files == [] || files[0].name == name then 0 else 1 + FirstNamed(files[1..], name)
  }

  /** Where the file of that very name stands, if there is one. */
  function Named(files: seq<File>, name: seq<byte>): Option<nat>
    requires ValidFiles(files)
  {
    var i := FirstNamed(files, name);
    if i < |files| then Some(EntryOffset(files, i)) else None
  }

  /** A search finds the file of that very name, or nothing if there is none, exactly when no file before it has a
      longer name that starts the same. */
  lemma FindIsExactIff(fs: seq<byte>, files: seq<File>, wanted: seq<byte>, r: Option<nat>)
    requires ValidFiles(files) && Finds(fs, files, wanted, r)
    ensures r == Named(files, wanted) <==> forall k | 0 <= k < FirstNamed(files, wanted) :: !(wanted < files[k].name)
  {
    hide EntryOffset, EncodeFile, StandsAt;
    var found, named := FirstMatch(files, wanted), FirstNamed(files, wanted);
    if found < named {
      assert wanted < files[found].name;
      if named < |files| {
        OffsetsGrow(files, found, named);
      }
    }
  }

  lemma {:induction false} OffsetsGrow(files: seq<File>, i: nat, j: nat)
    requires ValidFiles(files) && i < j <= |files|
    ensures EntryOffset(files, i) < EntryOffset(files, j)
    decreases j
  {
    hide EncodeFile, EntryOffset;
    OffsetNext(files, j - 1);
    if i < j - 1 {
      OffsetsGrow(files, i, j - 1);
    }
  }

  /** A first file with a longer name that starts the same is what every search for the shorter name ends at. */
  lemma LongerNameFirst(fs: seq<byte>, files: seq<File>, wanted: seq<byte>, r: Option<nat>)
    requires ValidFiles(files) && files != [] && wanted < files[0].name && Finds(fs, files, wanted, r)
    ensures r == Some(0) && r != Named(files, wanted)
  {
    hide EncodeFile, StandsAt;
    FindIsExactIff(fs, files, wanted, r);
  }

  function EmptyFile(name: seq<byte>): File {
    File(0, 0, 0, 0, 0, 0, 0, 0, name, [])
  }

  /** An archive of `ab` and then `a`, such as `FindFile` takes, on which every search for `a` ends at `ab`. */
  lemma FindsLongerName() returns (fs: seq<byte>, files: seq<File>, tail: seq<byte>)
    ensures ValidFiles(files) && AllIntSized(files)
    ensures fs == Encode(files) + tail && |tail| >= 2 && U16At(tail, 0) != MAGIC
    ensures FirstNamed(files, [0x61]) == 1 < |files|
    ensures forall r | Finds(fs, files, [0x61], r) :: r == Some(0) && r != Named(files, [0x61])
  {
    hide Encode, EncodeFile, Finds, Named, EntryOffset;
    files, tail := [EmptyFile([0x61, 0x62]), EmptyFile([0x61])], [0, 0];
    fs := Encode(files) + tail;
    assert files[1..] == [files[1]];
    assert [0x61] < files[0].name;
    forall r | Finds(fs, files, [0x61], r) {
      LongerNameFirst(fs, files, [0x61], r);
    }
  }

  /** An archive of the one file `a`: what a search for `/a` yields, by its contract, is the entry at its start. */
  lemma FindsBehindSlash(fs: seq<byte>, files: seq<File>, r: Option<nat>)
    requires ValidFiles(files) && |files| == 1 && files[0].name == [0x61]
    requires forall name: seq<byte> | [0x2F, 0x61] == [0x2F] + name :: Finds(fs, files, name, r)
    ensures r == Some(0)
  {
    hide EncodeFile, StandsAt;
    assert [0x2F, 0x61] == [0x2F] + [0x61];
  }

  /** What the scan finds at the `k`-th entry. */
  lemma EntryAt(fs: seq<byte>, files: seq<File>, tail: seq<byte>, k: nat, at: nat, wanted: seq<byte>)
    requires ValidFiles(files) && AllIntSized(files) && NoNul(wanted) && k < |files|
    requires RestAt(fs, files, tail, k, at)
    ensures at + HEADER <= |fs| && at == EntryOffset(files, k)
    ensures StandsAt(fs, at, EncodeFile(files[k]))
    ensures MatchesAt(fs, at + HEADER, wanted) <==> StartsWith(files[k], wanted)
  {
    assert ValidFile(files[k]);
    assert (StartsWith(files[k], wanted) <==> wanted <= files[k].name);
    assert at == EntryOffset(files, k);
    hide *;
    RestAdvances(fs, files, tail, k, at);
    FileStands(fs, at, files[k]);
    MatchIsPrefix(fs, at + HEADER, files[k].name, wanted);
  }

  lemma ValidAt(files: seq<File>, k: nat)
    requires ValidFiles(files) && AllIntSized(files) && k < |files|
    ensures ValidFile(files[k]) && IntSized(files[k])
  {}

  /** The scan lands on an entry, which starts with the magic, or on the word behind the last one. */
  lemma WordsAt(fs: seq<byte>, files: seq<File>, tail: seq<byte>, k: nat, at: nat)
    requires ValidFiles(files) && k <= |files| && RestAt(fs, files, tail, k, at)
    requires |tail| >= 2 && U16At(tail, 0) != MAGIC
    ensures at + 2 <= |fs|
    ensures U16At(fs, at) == MAGIC <==> k < |files|
  {
    if k < |files| {
      assert ValidFile(files[k]);
      hide *;
      RestAdvances(fs, files, tail, k, at);
      FileStands(fs, at, files[k]);
    } else {
      assert Encode(files[k..]) == [] && [] + tail == tail;
      hide *;
      FirstWord(fs, at, tail);
    }
  }

  lemma FirstWord(fs: seq<byte>, at: nat, tail: seq<byte>)
    requires StandsAt(fs, at, tail) && |tail| >= 2
    ensures at + 2 <= |fs| && U16At(fs, at) == U16At(tail, 0)
  {
    assert fs[at..at + |tail|][0] == fs[at] && fs[at..at + |tail|][1] == fs[at + 1];
  }

  // ---------------------------------------------------------------- reading

  /** Byte `p` of a file, or zero behind its end. */
  function WindowByte(data: seq<byte>, p: nat): byte {
    if p < |data| then data[p] else 0
  }

  lemma WindowIs(data: seq<byte>, p: nat)
    ensures WindowByte(data, p) == if p < |data| then data[p] else 0
  {}

  lemma PaddedByte(fs: seq<byte>, at: nat, data: seq<byte>, p: nat)
    requires StandsAt(fs, at, Pad(data))
    ensures p < Even(|data|) ==> at + p < |fs| && fs[at + p] == WindowByte(data, p)
    ensures p >= Even(|data|) ==> WindowByte(data, p) == 0
  {
    if p < Even(|data|) {
      assert fs[at..at + |Pad(data)|][p] == fs[at + p];
    }
  }

  /** `initramfs_read`, on the entry of `f` at `at`; `total` is the product of its `size` and `count`.  The driver reads
      up to the size rounded up to even; the pad byte it may read is zero. */
  method Read(fs: seq<byte>, at: nat, buffer: array<byte>, total: nat, offset: nat, ghost f: File) returns (n: nat)
    requires ValidFile(f) && IntSized(f) && StandsAt(fs, at, EncodeFile(f)) && total <= buffer.Length
    modifies buffer
    ensures n == total
    ensures forall i | 0 <= i < total :: buffer[i] == if offset + i < |f.data| then f.data[offset + i] else 0
    ensures buffer[total..] == old(buffer[..])[total..]
  {
    hide *;
    FileStands(fs, at, f);
    var data := at + DataOffset(fs, at);
    var size := DataSize(fs, at);
    var i := 0;
    while i < total
      invariant i <= total
      invariant forall k | 0 <= k < i :: buffer[k] == WindowByte(f.data, offset + k)
      invariant forall k | i <= k < buffer.Length :: buffer[k] == old(buffer[k])
    {
      var value: byte := 0;
      PaddedByte(fs, data, f.data, offset + i);
      if i + offset < size {
        value := fs[data + offset + i];
      }
      buffer[i] := value;
      i := i + 1;
    }
    forall k | 0 <= k < total
      ensures buffer[k] == if offset + k < |f.data| then f.data[offset + k] else 0
    {
      WindowIs(f.data, offset + k);
    }
    return total;
  }

  /** The fields of `struct stat` that the header fills. */
  datatype Stat = Stat(uid: nat, gid: nat, mode: nat, dev: nat, ino: nat, nlink: nat, rdev: nat, size: int, mtime: int)

  /** `initramfs_stat`, on the header at `at`. */
  function StatOf(fs: seq<byte>, at: nat): Stat
    requires at + HEADER <= |fs|
  {
    Stat(U16At(fs, at + 8), U16At(fs, at + 10), U16At(fs, at + 6), U16At(fs, at + 2), U16At(fs, at + 4),
         U16At(fs, at + 12), U16At(fs, at + 14), DataSize(fs, at),
         ToInt32(U16At(fs, at + 16) * 0x1_0000 + U16At(fs, at + 18)))
  }

  /** Every field is as it was encoded, except that the size is rounded up to even, and that 2 to the 32 is missing from
      a time past the range of `int`. */
  predicate StatMatches(st: Stat, f: File) {
    && st.uid == f.uid && st.gid == f.gid && st.mode == f.mode && st.dev == f.device && st.ino == f.inode
    && st.nlink == f.nlink && st.rdev == f.rdev
    && st.size == |f.data| + |f.data| % 2
    && st.mtime == f.modTime - if f.modTime < TWO_TO_THE_31 then 0 else TWO_TO_THE_32
  }

  lemma StatReadsBack(fs: seq<byte>, at: nat, f: File)
    requires ValidFile(f) && IntSized(f) && StandsAt(fs, at, EncodeFile(f))
    ensures at + HEADER <= |fs| && StatMatches(StatOf(fs, at), f)
  {
    assert f.modTime < TWO_TO_THE_32;
    hide *;
    FileStands(fs, at, f);
    HeaderStands(fs, at, f);
    StatOfWords(fs, at, f);
  }

  lemma StatOfWords(fs: seq<byte>, at: nat, f: File)
    requires at + HEADER <= |fs| && f.modTime < TWO_TO_THE_32 && DataSize(fs, at) == Even(|f.data|)
    requires U16At(fs, at + 2) == f.device && U16At(fs, at + 4) == f.inode && U16At(fs, at + 6) == f.mode
    requires U16At(fs, at + 8) == f.uid && U16At(fs, at + 10) == f.gid && U16At(fs, at + 12) == f.nlink
    requires U16At(fs, at + 14) == f.rdev
    requires U16At(fs, at + 16) == f.modTime / 0x1_0000 && U16At(fs, at + 18) == f.modTime % 0x1_0000
    ensures StatMatches(StatOf(fs, at), f)
  {
    hide U16At, DataSize, ToInt32;
    TimeIs(f.modTime);
  }

  lemma TimeIs(n: nat)
    requires n < TWO_TO_THE_32
    ensures ToInt32(n / 0x1_0000 * 0x1_0000 + n % 0x1_0000) == n - if n < TWO_TO_THE_31 then 0 else TWO_TO_THE_32
  {
    assert n / 0x1_0000 * 0x1_0000 + n % 0x1_0000 == n;
  }
}
