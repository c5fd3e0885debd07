// Where the bytes of an ext2 inode live: the index arithmetic of the block walk, the pointer trees it walks,
// and the `i_block` numbering of the ext2 on-disk layout that the arithmetic has to agree with.

module Ext2Layout {
  import opened Bytes
  import opened Revisions

  const DIRECT_COUNT: nat := 12

  /** The four places of an inode that block pointers start from. */
  datatype Root = Direct(i: nat) | Single | Double | Triple

  /** The pointers of `struct ext2_inode`. */
  datatype InodeFields = InodeFields(dbp: seq<nat>, sibp: nat, dibp: nat, tibp: nat)
  type Inode = n: InodeFields | |n.dbp| == DIRECT_COUNT witness InodeFields(seq(12, _ => 0), 0, 0, 0)

  /** A root and the entry to take in each pointer table below it. */
  datatype Path = Path(root: Root, steps: seq<nat>)

  // ---------------------------------------------------------------- block sizes

  /** The sizes that `init_ext2_super` can leave in `block_size`, other than zero. */
  ghost predicate ValidBlockSize(bs: nat) {
    exists k: nat :: k <= 53 && bs == 1024 * Pow2(k)
  }

  /** 1024 shifted left `shifts` times in 64 bits. */
  function Shifted(shifts: nat): nat {
    if shifts <= 53 then 1024 * Pow2(shifts) else 0
  }

  /** The loop of `init_ext2_super` that shifts a 64-bit `block_size`.  `log2` is the superblock's 32-bit field,
      which the loop counter holds as an `int`. */
  method BlockSizeOf(log2: nat) returns (bs: nat)
    requires log2 < TWO_TO_THE_32
    ensures bs == Shifted(if log2 < TWO_TO_THE_31 then log2 else 0)
  {
    bs := 1024;
    var i := ToInt32(log2);
    ghost var total: nat := if log2 < TWO_TO_THE_31 then log2 else 0;
    while i > 0
      invariant i <= total && (i <= 0 ==> total == 0 || i == 0)
      invariant bs == Shifted(total - if i > 0 then i else 0)
    {
      ShiftOnce(total - i);
      bs := bs * 2 % TWO_TO_THE_64;
      i := i - 1;
    }
  }

  lemma ShiftOnce(k: nat)
    ensures Shifted(k) * 2 % TWO_TO_THE_64 == Shifted(k + 1)
  {
    PowersUsed();
    if k < 53 {
      Pow2Grows(k + 1, 53);
    }
  }

  /** The mount leaves a usable block size exactly when the shift count is below 54 or reads as negative. */
  lemma BlockSizeIsValid(log2: nat)
    requires log2 < TWO_TO_THE_32
    ensures ValidBlockSize(Shifted(if log2 < TWO_TO_THE_31 then log2 else 0)) <==> (log2 <= 53 || log2 >= TWO_TO_THE_31)
  {
    var k: nat := if log2 < TWO_TO_THE_31 then log2 else 0;
    if k <= 53 {
      assert Shifted(k) == 1024 * Pow2(k);
    }
  }

  /** 1024 for a shift count of 0, twice as much for each one more. */
  lemma BlockSizesAre(log2: nat)
    ensures Shifted(0) == 1024 && Shifted(1) == 2048 && Shifted(2) == 4096
    ensures log2 < 53 ==> Shifted(log2 + 1) == 2 * Shifted(log2)
    ensures log2 > 53 ==> Shifted(log2) == 0
  {
    assert Pow2(2) == 2 * Pow2(1) == 4;
  }

  lemma {:induction false} Pow2Grows(j: nat, k: nat)
    requires j <= k
    ensures Pow2(j) <= Pow2(k)
    decreases k - j
  {
    if j < k {
      Pow2Grows(j + 1, k);
    }
  }

  lemma PowersUsed()
    ensures Pow2(53) == 0x20_0000_0000_0000 && Pow2(54) == 0x40_0000_0000_0000
  {
    assert Pow2(9) == 0x200;
    Pow2Adds(9, 9);
    Pow2Adds(18, 9);
    Pow2Adds(27, 27);
  }

  /** What the proofs use of a block size: whole pointers, at least 256 of them, and a pointer count that
      divides 2 to the 64, so that reducing a wrapped 64-bit number by it is reducing the true number. */
  lemma BlockSizeFacts(bs: nat)
    requires ValidBlockSize(bs)
    ensures bs % 4 == 0 && bs / 4 >= 256
    ensures TWO_TO_THE_64 % (bs / 4) == 0
  {
    var k: nat :| k <= 53 && bs == 1024 * Pow2(k);
    assert bs / 4 == 256 * Pow2(k);
    Pow2Adds(k, 54 - k);
    PowersUsed();
    CofactorsDivide(Pow2(k), Pow2(54 - k));
  }

  lemma CofactorsDivide(p: nat, q: nat)
    requires p > 0 && p * q == 0x40_0000_0000_0000
    ensures TWO_TO_THE_64 % (256 * p) == 0
  {
    assert (q * 4) * (256 * p) == 1024 * (p * q);
    DivModIs(TWO_TO_THE_64, 256 * p, q * 4, 0);
  }

  // ---------------------------------------------------------------- the index arithmetic of the walk

  /** `base_blk_idx`: the file block that byte `p` of a file is in. */
  function BlockIndex(bs: nat, p: nat): nat
    requires bs > 0
  {
    p / bs
  }

  /** `doubly_idx`.  Shipped: the divisor is the block size.  Repair: it is the number of pointers in a block. */
  function Doubly(rev: Revision, bs: nat, idx: nat): nat
    requires bs >= 4 && idx >= DIRECT_COUNT
  {
    (idx - DIRECT_COUNT) / (if rev.AsShipped? then bs else bs / 4)
  }

  /** `triply_idx`.  Repair: one is taken off first, since doubly indirect index 0 is the singly indirect block. */
  function Triply(rev: Revision, bs: nat, idx: nat): nat
    requires bs >= 4 && idx >= DIRECT_COUNT
  {
    var doubly := Doubly(rev, bs, idx);
    if rev.AsShipped? then doubly / bs else if doubly == 0 then 0 else (doubly - 1) / (bs / 4)
  }

  /** The entries that the walk takes for block `idx` of a file, with the 64-bit wrap of `triply_idx - 1`. */
  function Split(rev: Revision, bs: nat, idx: nat): Path
    requires bs >= 4
  {
    if idx < DIRECT_COUNT then
      Path(Direct(idx), [])
    else
      var ptrs := bs / 4;
      var single := (idx - DIRECT_COUNT) % ptrs;
      var doubly := Doubly(rev, bs, idx);
      if doubly == 0 then
        Path(Single, [single])
      else if doubly >= ptrs + 1 then
        Path(Triple, [(Triply(rev, bs, idx) - 1) % TWO_TO_THE_64 % ptrs, (doubly - 1) % ptrs, single])
      else
        Path(Double, [(doubly - 1) % ptrs, single])
  }

  // ---------------------------------------------------------------- the i_block numbering

  /** The number of blocks below a pointer tree of height `h`. */
  function Span(ptrs: nat, h: nat): (r: nat)
    requires ptrs > 0
    ensures r > 0
  {
    if h == 0 then 1 else ptrs * Span(ptrs, h - 1)
  }

  /** `k` written in base `ptrs` with `h` digits: the entries that lead to leaf `k` of a tree of height `h`. */
  function Digits(ptrs: nat, h: nat, k: nat): (ds: seq<nat>)
    requires ptrs > 0
    ensures |ds| == h
  {
    if h == 0 then [] else [k / Span(ptrs, h - 1)] + Digits(ptrs, h - 1, k % Span(ptrs, h - 1))
  }

  function Undigits(ptrs: nat, ds: seq<nat>): nat
    requires ptrs > 0
  {
    if ds == [] then 0 else ds[0] * Span(ptrs, |ds| - 1) + Undigits(ptrs, ds[1..])
  }

  /** The first file block that root `Single`, `Double` or `Triple` is responsible for. */
  function FirstOf(ptrs: nat, root: Root): nat
    requires ptrs > 0
  {
    match root
    case Direct(i) => i
    case Single => DIRECT_COUNT
    case Double => DIRECT_COUNT + Span(ptrs, 1)
    case Triple => DIRECT_COUNT + Span(ptrs, 1) + Span(ptrs, 2)
  }

  function Height(root: Root): nat {
    match root
    case Direct(_) => 0
    case Single => 1
    case Double => 2
    case Triple => 3
  }

  /** The number of blocks that an inode can map. */
  function Capacity(ptrs: nat): nat
    requires ptrs > 0
  {
    FirstOf(ptrs, Triple) + Span(ptrs, 3)
  }

  /** The root that the ext2 layout makes responsible for file block `idx`. */
  function RootOf(ptrs: nat, idx: nat): Root
    requires ptrs > 0
  {
    if idx < DIRECT_COUNT then Direct(idx)
    else if idx < FirstOf(ptrs, Double) then Single
    else if idx < FirstOf(ptrs, Triple) then Double
    else Triple
  }

  /** The path that the ext2 layout assigns to file block `idx`. */
  function LayoutPath(ptrs: nat, idx: nat): Path
    requires ptrs > 0
  {
    var root := RootOf(ptrs, idx);
    Path(root, Digits(ptrs, Height(root), idx - FirstOf(ptrs, root)))
  }

  predicate ValidPath(ptrs: nat, p: Path) {
    && (p.root.Direct? ==> p.root.i < DIRECT_COUNT)
    && |p.steps| == Height(p.root)
    && forall j | 0 <= j < |p.steps| :: p.steps[j] < ptrs
  }

  /** The file block that a path leads to: the inverse of `LayoutPath`. */
  function Join(ptrs: nat, p: Path): nat
    requires ptrs > 0
  {
    FirstOf(ptrs, p.root) + Undigits(ptrs, p.steps)
  }

  lemma {:induction false} DigitsThenUndigits(ptrs: nat, h: nat, k: nat)
    requires ptrs > 0 && k < Span(ptrs, h)
    ensures Undigits(ptrs, Digits(ptrs, h, k)) == k
    ensures forall j | 0 <= j < h :: Digits(ptrs, h, k)[j] < ptrs
  {
    if h > 0 {
      var s := Span(ptrs, h - 1);
      assert k == k / s * s + k % s;
      DivBelow(k, s, ptrs);
      DigitsThenUndigits(ptrs, h - 1, k % s);
      assert Digits(ptrs, h, k)[1..] == Digits(ptrs, h - 1, k % s);
    }
  }

  lemma {:induction false} UndigitsThenDigits(ptrs: nat, ds: seq<nat>)
    requires ptrs > 0
    requires forall j | 0 <= j < |ds| :: ds[j] < ptrs
    ensures Undigits(ptrs, ds) < Span(ptrs, |ds|)
    ensures Digits(ptrs, |ds|, Undigits(ptrs, ds)) == ds
  {
    if ds != [] {
      var s, low := Span(ptrs, |ds| - 1), Undigits(ptrs, ds[1..]);
      UndigitsThenDigits(ptrs, ds[1..]);
      DivModIs(ds[0] * s + low, s, ds[0], low);
      DivBelow(ds[0] * s + low, s, ptrs);
    }
  }

  /** The layout numbers its valid paths from 0 to the capacity without gap or repeat. */
  lemma LayoutPathIsBijection(ptrs: nat)
    requires ptrs > 0
    ensures forall idx: nat | idx < Capacity(ptrs) ::
              ValidPath(ptrs, LayoutPath(ptrs, idx)) && Join(ptrs, LayoutPath(ptrs, idx)) == idx
    ensures forall p: Path | ValidPath(ptrs, p) :: Join(ptrs, p) < Capacity(ptrs)
              && LayoutPath(ptrs, Join(ptrs, p)) == p
  {
    forall idx: nat | idx < Capacity(ptrs)
      ensures ValidPath(ptrs, LayoutPath(ptrs, idx)) && Join(ptrs, LayoutPath(ptrs, idx)) == idx
    {
      LayoutPathJoins(ptrs, idx);
    }
    forall p: Path | ValidPath(ptrs, p)
      ensures Join(ptrs, p) < Capacity(ptrs) && LayoutPath(ptrs, Join(ptrs, p)) == p
    {
      JoinSplits(ptrs, p);
    }
  }

  lemma LayoutPathJoins(ptrs: nat, idx: nat)
    requires ptrs > 0 && idx < Capacity(ptrs)
    ensures ValidPath(ptrs, LayoutPath(ptrs, idx)) && Join(ptrs, LayoutPath(ptrs, idx)) == idx
  {
    var root := RootOf(ptrs, idx);
    DigitsThenUndigits(ptrs, Height(root), idx - FirstOf(ptrs, root));
  }

  lemma JoinSplits(ptrs: nat, p: Path)
    requires ptrs > 0 && ValidPath(ptrs, p)
    ensures Join(ptrs, p) < Capacity(ptrs) && LayoutPath(ptrs, Join(ptrs, p)) == p
  {
    UndigitsThenDigits(ptrs, p.steps);
    assert RootOf(ptrs, Join(ptrs, p)) == p.root;
  }

  /** The numbering itself: twelve direct blocks, then the leaves of trees of one, two and three tables, in order. */
  lemma LayoutIs(ptrs: nat, a: nat, b: nat, c: nat)
    requires a < ptrs && b < ptrs && c < ptrs
    ensures c < 12 ==> LayoutPath(ptrs, c) == Path(Direct(c), [])
    ensures LayoutPath(ptrs, 12 + c) == Path(Single, [c])
    ensures b * ptrs >= 0 && LayoutPath(ptrs, 12 + ptrs + b * ptrs + c) == Path(Double, [b, c])
    ensures (a * ptrs + b) * ptrs >= 0 && ptrs * ptrs >= 0
    ensures LayoutPath(ptrs, 12 + ptrs + ptrs * ptrs + (a * ptrs + b) * ptrs + c) == Path(Triple, [a, b, c])
  {
    SpansAre(ptrs);
    JoinsTo(ptrs, a, b, c);
    if c < 12 {
      JoinSplits(ptrs, Path(Direct(c), []));
    }
    JoinSplits(ptrs, Path(Single, [c]));
    JoinSplits(ptrs, Path(Double, [b, c]));
    JoinSplits(ptrs, Path(Triple, [a, b, c]));
  }

  lemma JoinsTo(ptrs: nat, a: nat, b: nat, c: nat)
    requires a < ptrs && b < ptrs && c < ptrs
    ensures c < 12 ==> Join(ptrs, Path(Direct(c), [])) == c
    ensures Join(ptrs, Path(Single, [c])) == 12 + c
    ensures Join(ptrs, Path(Double, [b, c])) == 12 + ptrs + b * ptrs + c
    ensures b * ptrs >= 0 && (a * ptrs + b) * ptrs >= 0 && ptrs * ptrs >= 0
    ensures Join(ptrs, Path(Triple, [a, b, c])) == 12 + ptrs + ptrs * ptrs + (a * ptrs + b) * ptrs + c
  {
    SpansAre(ptrs);
    ProductOfNats(a, ptrs);
    ProductOfNats(b, ptrs);
    ProductOfNats(a * ptrs + b, ptrs);
    assert [b, c][1..] == [c] && [a, b, c][1..] == [b, c] && [c][1..] == [];
    assert Undigits(ptrs, [c]) == c && Undigits(ptrs, [b, c]) == b * ptrs + c;
    assert (a * ptrs + b) * ptrs == a * (ptrs * ptrs) + b * ptrs;
    assert Undigits(ptrs, [a, b, c]) == a * (ptrs * ptrs) + (b * ptrs + c);
  }

  /** What the shipped arithmetic makes of block `12 + d * bs + r`: the same for four stretches of `ptrs` blocks in
      turn. */
  lemma ShippedSplitAt(bs: nat, d: nat, r: nat)
    requires ValidBlockSize(bs) && r < bs
    ensures bs >= 4 && d * bs >= 0
    ensures Split(AsShipped, bs, 12 + d * bs + r)
         == if d == 0 then Path(Single, [r % (bs / 4)])
            else if d <= bs / 4 then Path(Double, [d - 1, r % (bs / 4)])
            else Path(Triple, [(d / bs - 1) % TWO_TO_THE_64 % (bs / 4), (d - 1) % (bs / 4), r % (bs / 4)])
  {
    BlockSizeFacts(bs);
    ProductOfNats(d, bs);
    ShippedQuotients(bs, d, r);
    if 0 < d <= bs / 4 {
      DivModIs(d - 1, bs / 4, 0, d - 1);
    }
  }

  lemma ShippedQuotients(bs: nat, d: nat, r: nat)
    requires bs >= 4 && bs == 4 * (bs / 4) && r < bs
    ensures (d * bs + r) / bs == d && (d * bs + r) % (bs / 4) == r % (bs / 4)
  {
    DivModIs(d * bs + r, bs, d, r);
    var ptrs := bs / 4;
    assert d * bs + r == (4 * d) * ptrs + r;
    DivModSplit(r, ptrs);
    assert d * bs + r == (4 * d + r / ptrs) * ptrs + r % ptrs;
    DivModIs(d * bs + r, ptrs, 4 * d + r / ptrs, r % ptrs);
  }

  /** The repaired arithmetic is the ext2 layout, over everything that an inode can map. */
  lemma RepairedSplitIsLayout(bs: nat, idx: nat)
    requires ValidBlockSize(bs) && idx < Capacity(bs / 4)
    ensures Split(Repaired, bs, idx) == LayoutPath(bs / 4, idx)
  {
    BlockSizeFacts(bs);
    if idx >= DIRECT_COUNT {
      DigitsOfIndirect(bs / 4, idx);
      RootOfQuotient(bs / 4, idx);
    }
  }

  lemma SplitIsValid(rev: Revision, bs: nat, idx: nat)
    requires ValidBlockSize(bs)
    ensures bs >= 4 && ValidPath(bs / 4, Split(rev, bs, idx))
  {
    BlockSizeFacts(bs);
  }

  /** It is the layout there and nowhere else: past the capacity of an inode the last divisor wraps, and the walk takes
      the path of an earlier block. */
  lemma RepairedSplitIsLayoutIff(bs: nat, idx: nat)
    requires ValidBlockSize(bs) && bs >= 4
    ensures Split(Repaired, bs, idx) == LayoutPath(bs / 4, idx) <==> idx < Capacity(bs / 4)
    ensures idx >= Capacity(bs / 4) ==>
              var alias := Join(bs / 4, Split(Repaired, bs, idx));
              alias < Capacity(bs / 4) && Split(Repaired, bs, idx) == Split(Repaired, bs, alias)
  {
    SplitIsValid(Repaired, bs, idx);
    if idx < Capacity(bs / 4) {
      RepairedSplitIsLayout(bs, idx);
    } else {
      var alias := Join(bs / 4, Split(Repaired, bs, idx));
      JoinSplits(bs / 4, Split(Repaired, bs, idx));
      RepairedSplitIsLayout(bs, alias);
      PastCapacity(bs / 4, idx);
    }
  }

  lemma PastCapacity(ptrs: nat, idx: nat)
    requires ptrs > 0 && idx >= Capacity(ptrs)
    ensures !ValidPath(ptrs, LayoutPath(ptrs, idx))
  {
    var k := idx - FirstOf(ptrs, Triple);
    assert Digits(ptrs, 3, k)[0] == k / Span(ptrs, 2);
    DivBelow(k, Span(ptrs, 2), ptrs);
  }

  /** The steps of `Split(Repaired, ..)` past the direct pointers, for quotient `d` and remainder `s`. */
  function RepairedSteps(ptrs: nat, d: nat, s: nat): seq<nat>
    requires ptrs > 0
  {
    if d == 0 then [s]
    else if d <= ptrs then [(d - 1) % ptrs, s]
    else [((d - 1) / ptrs - 1) % TWO_TO_THE_64 % ptrs, (d - 1) % ptrs, s]
  }

  lemma DigitsOfIndirect(ptrs: nat, idx: nat)
    requires 0 < ptrs <= TWO_TO_THE_64 && DIRECT_COUNT <= idx < Capacity(ptrs)
    ensures LayoutPath(ptrs, idx).steps == RepairedSteps(ptrs, (idx - DIRECT_COUNT) / ptrs, (idx - DIRECT_COUNT) % ptrs)
  {
    hide *;
    var raw := idx - DIRECT_COUNT;
    var d, s := raw / ptrs, raw % ptrs;
    LayoutSteps(ptrs, idx);
    DivModSplit(raw, ptrs);
    if d == 0 {
      SingleDigits(ptrs, raw, s);
    } else if d <= ptrs {
      DoubleDigits(ptrs, raw - ptrs, d, s);
    } else {
      TripleDigits(ptrs, raw - ptrs - ptrs * ptrs, d, s);
    }
  }

  lemma SingleDigits(ptrs: nat, k: nat, s: nat)
    requires k == s < ptrs
    ensures Digits(ptrs, 1, k) == RepairedSteps(ptrs, 0, s)
  {
    DigitsOfOne(ptrs, k);
  }

  lemma LayoutSteps(ptrs: nat, idx: nat)
    requires 0 < ptrs && DIRECT_COUNT <= idx < Capacity(ptrs)
    ensures var raw, d, path := idx - DIRECT_COUNT, (idx - DIRECT_COUNT) / ptrs, LayoutPath(ptrs, idx);
            if d == 0 then path.steps == Digits(ptrs, 1, raw)
            else if d <= ptrs then raw >= ptrs && path.steps == Digits(ptrs, 2, raw - ptrs)
            else
              && 0 <= raw - ptrs - ptrs * ptrs < ptrs * (ptrs * ptrs)
              && path.steps == Digits(ptrs, 3, raw - ptrs - ptrs * ptrs)
  {
    SpansAre(ptrs);
    RootOfQuotient(ptrs, idx);
  }

  lemma RowsBelowCapacity(ptrs: nat, raw: nat)
    requires 0 < ptrs && raw < ptrs + ptrs * ptrs + ptrs * (ptrs * ptrs)
    ensures raw / ptrs < ptrs * ptrs + ptrs + 1
  {
    assert (ptrs * ptrs + ptrs + 1) * ptrs == ptrs * (ptrs * ptrs) + ptrs * ptrs + ptrs;
    DivBelow(raw, ptrs, ptrs * ptrs + ptrs + 1);
  }

  lemma RootOfQuotient(ptrs: nat, idx: nat)
    requires ptrs > 0 && idx >= DIRECT_COUNT
    ensures var d := (idx - DIRECT_COUNT) / ptrs;
            RootOf(ptrs, idx) == if d == 0 then Single else if d <= ptrs then Double else Triple
  {
    SpansAre(ptrs);
    DivBelow(idx - DIRECT_COUNT, ptrs, 1);
    DivBelow(idx - DIRECT_COUNT, ptrs, ptrs + 1);
    assert (ptrs + 1) * ptrs == ptrs * ptrs + ptrs;
  }

  lemma DoubleDigits(ptrs: nat, k: nat, d: nat, s: nat)
    requires 1 <= d <= ptrs && s < ptrs && k + ptrs == d * ptrs + s
    ensures Digits(ptrs, 2, k) == RepairedSteps(ptrs, d, s)
  {
    assert k == (d - 1) * ptrs + s;
    DivModIs(k, ptrs, d - 1, s);
    DivModIs(d - 1, ptrs, 0, d - 1);
    DigitsOfTwo(ptrs, k);
  }

  lemma TripleDigits(ptrs: nat, k: nat, d: nat, s: nat)
    requires s < ptrs < d && ptrs <= TWO_TO_THE_64
    requires k < ptrs * (ptrs * ptrs) && k + ptrs + ptrs * ptrs == d * ptrs + s
    ensures Digits(ptrs, 3, k) == RepairedSteps(ptrs, d, s)
  {
    hide Digits, Span;
    var u, v := (d - 1 - ptrs) / ptrs, (d - 1 - ptrs) % ptrs;
    DivModIs(d * ptrs + s, ptrs, d, s);
    RowsBelowCapacity(ptrs, d * ptrs + s);
    TripleIndex(ptrs, d, u, v);
    DigitsOfThree(ptrs, k, u, v, s);
  }

  lemma TripleIndex(ptrs: nat, d: nat, u: nat, v: nat)
    requires ptrs < d < ptrs * ptrs + ptrs + 1 && ptrs <= TWO_TO_THE_64
    requires u == (d - 1 - ptrs) / ptrs && v == (d - 1 - ptrs) % ptrs
    ensures ((d - 1) / ptrs - 1) % TWO_TO_THE_64 % ptrs == u && (d - 1) % ptrs == v < ptrs
    ensures d * ptrs - ptrs - ptrs * ptrs == (u * ptrs + v) * ptrs
  {
    LessOneRow(ptrs, d - 1, u, v);
    DivBelow(d - 1 - ptrs, ptrs, ptrs);
    DivModIs(u, TWO_TO_THE_64, 0, u);
    DivModIs(u, ptrs, 0, u);
  }

  lemma LessOneRow(ptrs: nat, a: nat, u: nat, v: nat)
    requires 0 < ptrs <= a && u == (a - ptrs) / ptrs && v == (a - ptrs) % ptrs
    ensures a - ptrs == u * ptrs + v && a / ptrs == u + 1 && a % ptrs == v
  {
    assert a == (u + 1) * ptrs + v;
    DivModIs(a, ptrs, u + 1, v);
  }

  lemma SpansAre(ptrs: nat)
    requires ptrs > 0
    ensures Span(ptrs, 1) == ptrs && Span(ptrs, 2) == ptrs * ptrs && Span(ptrs, 3) == ptrs * (ptrs * ptrs)
  {
    assert Span(ptrs, 0) == 1;
    assert Span(ptrs, 1) == ptrs * 1;
  }

  lemma DigitsOfOne(ptrs: nat, k: nat)
    requires 0 < ptrs && k < ptrs
    ensures Digits(ptrs, 1, k) == [k]
  {
    assert Span(ptrs, 0) == 1;
    assert Digits(ptrs, 0, k % 1) == [];
  }

  lemma DigitsOfTwo(ptrs: nat, k: nat)
    requires 0 < ptrs
    ensures Digits(ptrs, 2, k) == [k / ptrs, k % ptrs]
  {
    SpansAre(ptrs);
    DigitsOfOne(ptrs, k % ptrs);
  }

  lemma DigitsOfThree(ptrs: nat, k: nat, u: nat, v: nat, s: nat)
    requires v < ptrs && s < ptrs && k == (u * ptrs + v) * ptrs + s
    ensures Digits(ptrs, 3, k) == [u, v, s]
  {
    SpansAre(ptrs);
    var low := v * ptrs + s;
    assert k == u * (ptrs * ptrs) + low;
    DivBelow(low, ptrs, ptrs);
    DivModIs(low, ptrs, v, s);
    DivModIs(k, ptrs * ptrs, u, low);
    DigitsOfTwo(ptrs, low);
  }
}
