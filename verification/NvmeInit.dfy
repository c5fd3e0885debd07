// Bringing up an NVMe controller: the paged enumeration of its namespaces, and the division of the granted I/O queue
// pairs among namespaces and processors.

module NvmeInit {
  import opened Bytes
  import opened Options

  const PAGE_ENTRIES: nat := 1024

  // ---------------------------------------------------------------- sets as bits

  predicate Bit(sets: nat, i: nat)
    decreases i
  {
    if i == 0 then sets % 2 == 1 else Bit(sets / 2, i - 1)
  }

  lemma {:induction false} BitIs(sets: nat, i: nat)
    ensures Bit(sets, i) <==> sets / Pow2(i) % 2 == 1
    decreases i
  {
    if i > 0 {
      BitIs(sets / 2, i - 1);
      DivTwice(sets, Pow2(i - 1));
    }
  }

  lemma DivTwice(a: nat, d: nat)
    requires d > 0
    ensures a / 2 / d == a / (2 * d)
  {
    var q := a / 2 / d;
    DivModSplit(a / 2, d);
    assert a == q * (2 * d) + (2 * (a / 2 % d) + a % 2);
    DivModIs(a, 2 * d, q, 2 * (a / 2 % d) + a % 2);
  }

  /** `__builtin_ffs(sets) - 1`. */
  function LowestBit(sets: nat): nat
    requires sets > 0
  {
    if sets % 2 == 1 then 0 else 1 + LowestBit(sets / 2)
  }

  lemma {:induction false} ClearLowest(sets: nat, i: nat)
    requires sets > 0
    ensures Pow2(LowestBit(sets)) <= sets
    ensures Bit(sets, LowestBit(sets)) && (Bit(sets, i) ==> LowestBit(sets) <= i)
    ensures Bit(sets - Pow2(LowestBit(sets)), i) <==> Bit(sets, i) && i != LowestBit(sets)
    decreases sets
  {
    if sets % 2 == 0 {
      ClearLowest(sets / 2, if i > 0 then i - 1 else 0);
      assert (sets - 2 * Pow2(LowestBit(sets / 2))) / 2 == sets / 2 - Pow2(LowestBit(sets / 2));
    } else {
      assert (sets - 1) / 2 == sets / 2;
    }
  }

  // ---------------------------------------------------------------- enumeration

  /** An active namespace of a command set. */
  datatype Found = Found(commandSet: nat, nsid: nat)

  predicate Ascending(ids: seq<nat>) {
    (forall i | 0 <= i < |ids| :: ids[i] > 0) && (forall i, j | 0 <= i < j < |ids| :: ids[i] < ids[j])
  }

  /** The ids above `t`. */
  function Above(ids: seq<nat>, t: nat): seq<nat> {
    if ids == [] then [] else if ids[0] > t then ids else Above(ids[1..], t)
  }

  /** The controller's answer to one list command: up to 1024 active ids above `t`, padded with zeros. */
  function ListPage(ids: seq<nat>, t: nat): (page: seq<nat>)
    ensures page == Padded(Above(ids, t))
  {
    Padded(Above(ids, t))
  }

  function Padded(above: seq<nat>): (page: seq<nat>)
    ensures |page| == PAGE_ENTRIES
    ensures forall i | 0 <= i < PAGE_ENTRIES :: page[i] == if i < |above| then above[i] else 0
  {
    if |above| >= PAGE_ENTRIES then above[..PAGE_ENTRIES] else above + seq(PAGE_ENTRIES - |above|, _ => 0)
  }

  function Tagged(commandSet: nat, ids: seq<nat>): (r: seq<Found>)
    ensures |r| == |ids|
    ensures forall i | 0 <= i < |ids| :: r[i] == Found(commandSet, ids[i])
  {
    seq(|ids|, i requires 0 <= i < |ids| => Found(commandSet, ids[i]))
  }

  function Reversed(s: seq<Found>): (r: seq<Found>)
    ensures |r| == |s|
    ensures forall i | 0 <= i < |s| :: r[i] == s[|s| - 1 - i]
  {
    if s == [] then [] else Reversed(s[1..]) + [s[0]]
  }

  /** What a controller reports: the ids of each command set, and the list commands that fail. */
  datatype Report = Report(ids: nat -> seq<nat>, fails: (nat, nat) -> bool)

  ghost predicate ValidReport(r: Report) {
    forall c :: Ascending(r.ids(c))
  }

  /** The ids of set `c` above `t` that are reached before a list command fails. */
  ghost function Listed(r: Report, c: nat, t: nat): (ids: seq<nat>)
    requires ValidReport(r)
    decreases |Above(r.ids(c), t)|
  {
    if r.fails(c, t) then []
    else
      var above := Above(r.ids(c), t);
      if |above| < PAGE_ENTRIES then above
      else
        AboveDrops(r.ids(c), t, PAGE_ENTRIES);
        above[..PAGE_ENTRIES] + Listed(r, c, above[PAGE_ENTRIES - 1])
  }

  /** Continuing from the last id of a page continues where the page ended. */
  lemma {:induction false} AboveDrops(ids: seq<nat>, t: nat, k: nat)
    requires Ascending(ids) && 0 < k <= |Above(ids, t)|
    ensures Above(ids, Above(ids, t)[k - 1]) == Above(ids, t)[k..]
    ensures Above(ids, t)[k - 1] > t
  {
    if ids[0] > t {
      AboveSuffix(ids, k);
    } else {
      AboveDrops(ids[1..], t, k);
      AboveMembers(ids[1..], t);
      assert Above(ids, t)[k - 1] in Above(ids[1..], t);
    }
  }

  lemma {:induction false} AboveSuffix(ids: seq<nat>, k: nat)
    requires Ascending(ids) && 0 < k <= |ids|
    ensures Above(ids, ids[k - 1]) == ids[k..]
    decreases |ids|
  {
    if k == 1 {
      assert ids[1..] != [] ==> ids[1..][0] == ids[1];
    } else {
      assert ids[0] < ids[k - 1] == ids[1..][k - 2];
      AboveSuffix(ids[1..], k - 1);
      assert ids[1..][k - 1..] == ids[k..];
    }
  }

  lemma {:induction false} AboveMembers(ids: seq<nat>, t: nat)
    ensures forall x | x in Above(ids, t) :: x in ids
    ensures Ascending(ids) ==> forall x | x in Above(ids, t) :: x > t
    ensures Ascending(ids) ==> Ascending(Above(ids, t))
  {
    if ids != [] && ids[0] <= t {
      AboveMembers(ids[1..], t);
    }
  }

  lemma {:induction false} AboveIs(ids: seq<nat>, t: nat, x: nat)
    requires Ascending(ids)
    ensures x in Above(ids, t) <==> x in ids && x > t
    decreases |ids|
  {
    if ids != [] {
      if ids[0] <= t {
        AboveIs(ids[1..], t, x);
        assert ids == [ids[0]] + ids[1..];
      } else {
        AboveMembers(ids, t);
      }
    }
  }

  lemma {:induction false} AboveZero(ids: seq<nat>)
    requires Ascending(ids)
    ensures Above(ids, 0) == ids
  {}

  /** All sets of the mask, lowest first. */
  ghost function ListedAll(r: Report, sets: nat): seq<Found>
    requires ValidReport(r)
    decreases sets
  {
    if sets == 0 then []
    else
      ClearLowest(sets, 0);
      Tagged(LowestBit(sets), Listed(r, LowestBit(sets), 0)) + ListedAll(r, sets - Pow2(LowestBit(sets)))
  }

  lemma ReversedAppends(a: seq<Found>, x: Found)
    ensures Reversed(a + [x]) == [x] + Reversed(a)
  {
    assert forall i | 0 <= i < |a| :: Reversed(a + [x])[i + 1] == Reversed(a)[i];
  }

  lemma NoneCollected(found: seq<Found>, idx: nat)
    ensures found + Tagged(idx, []) == found
  {}

  lemma OneCollected(found: seq<Found>, idx: nat, above: seq<nat>, i: nat)
    requires i < |above|
    ensures Reversed(found + Tagged(idx, above[..i + 1]))
              == [Found(idx, above[i])] + Reversed(found + Tagged(idx, above[..i]))
  {
    ReversedAppends(found + Tagged(idx, above[..i]), Found(idx, above[i]));
    assert found + Tagged(idx, above[..i + 1]) == (found + Tagged(idx, above[..i])) + [Found(idx, above[i])];
  }

  lemma PageCollected(found: seq<Found>, idx: nat, got: seq<nat>, more: seq<nat>)
    ensures (found + Tagged(idx, got)) + Tagged(idx, more) == found + Tagged(idx, got + more)
  {}

  /** The part of a page's ids that its entries hold. */
  function OnPage(above: seq<nat>): seq<nat> {
    if |above| < PAGE_ENTRIES then above else above[..PAGE_ENTRIES]
  }

  lemma PageEnds(above: seq<nat>, i: nat)
    requires forall k | 0 <= k < |above| :: above[k] > 0
    requires i <= PAGE_ENTRIES && i <= |above|
    ensures i < PAGE_ENTRIES ==> (Padded(above)[i] == 0 <==> i == |above|)
    ensures i < PAGE_ENTRIES && i < |above| ==> Padded(above)[i] == above[i]
    ensures i == PAGE_ENTRIES || i == |above| ==> above[..i] == OnPage(above)
    ensures 0 < i == PAGE_ENTRIES ==> |above| >= PAGE_ENTRIES
    ensures PAGE_ENTRIES == 1024
  {}

  /** The entries of one page, up to the first zero; `t` is the last entry looked at. */
  method CollectPage(idx: nat, namespaces: seq<nat>, ghost above: seq<nat>, list0: seq<Found>, count0: nat,
                     ghost found: seq<Found>)
    returns (list: seq<Found>, count: nat, t: nat)
    requires namespaces == Padded(above) && (forall i | 0 <= i < |above| :: above[i] > 0)
    requires list0 == Reversed(found) && count0 == |found|
    ensures list == Reversed(found + Tagged(idx, OnPage(above))) && count == |found| + |OnPage(above)|
    ensures t == if |above| < PAGE_ENTRIES then 0 else above[PAGE_ENTRIES - 1]
  {
    hide *;
    list, count, t := list0, count0, 0;
    var i := 0;
    NoneCollected(found, idx);
    PageEnds(above, 0);
    assert above[..0] == [];
    while i < PAGE_ENTRIES
      invariant i <= PAGE_ENTRIES && i <= |above|
      invariant list == Reversed(found + Tagged(idx, above[..i])) && count == |found| + i
      invariant i > 0 ==> t == above[i - 1]
    {
      PageEnds(above, i);
      t := namespaces[i];
      if namespaces[i] == 0 {
        break;
      }
      OneCollected(found, idx, above, i);
      list := [Found(idx, namespaces[i])] + list;
      count := count + 1;
      i := i + 1;
    }
    PageEnds(above, i);
    assert |above[..i]| == i;
  }

  lemma ListedStep(r: Report, idx: nat, t: nat)
    requires ValidReport(r)
    ensures r.fails(idx, t) ==> Listed(r, idx, t) == []
    ensures var above := Above(r.ids(idx), t);
            && (forall i | 0 <= i < |above| :: above[i] > t)
            && (!r.fails(idx, t) ==>
                  if |above| < PAGE_ENTRIES then Listed(r, idx, t) == OnPage(above)
                  else && above[PAGE_ENTRIES - 1] > t
                       && Listed(r, idx, t) == OnPage(above) + Listed(r, idx, above[PAGE_ENTRIES - 1])
                       && |Above(r.ids(idx), above[PAGE_ENTRIES - 1])| < |above|)
  {
    AboveMembers(r.ids(idx), t);
    assert forall i | 0 <= i < |Above(r.ids(idx), t)| :: Above(r.ids(idx), t)[i] in Above(r.ids(idx), t);
    if |Above(r.ids(idx), t)| >= PAGE_ENTRIES {
      AboveDrops(r.ids(idx), t, PAGE_ENTRIES);
    }
  }

  /** The pages of one command set. */
  method ListSet(r: Report, idx: nat, list0: seq<Found>, count0: nat, ghost found: seq<Found>)
    returns (list: seq<Found>, count: nat)
    requires ValidReport(r) && list0 == Reversed(found) && count0 == |found|
    ensures list == Reversed(found + Tagged(idx, Listed(r, idx, 0)))
    ensures count == |found| + |Listed(r, idx, 0)|
  {
    hide *;
    list, count := list0, count0;
    ghost var got := [];
    var t: nat := 0;
    NoneCollected(found, idx);
    while true
      invariant got + Listed(r, idx, t) == Listed(r, idx, 0)
      invariant list == Reversed(found + Tagged(idx, got)) && count == |found| + |got|
      decreases |Above(r.ids(idx), t)|
    {
      var nsid := t;
      ListedStep(r, idx, nsid);
      if r.fails(idx, nsid) {
        break;
      }
      var namespaces := ListPage(r.ids(idx), nsid);
      ghost var above := Above(r.ids(idx), nsid);
      PageCollected(found, idx, got, OnPage(above));
      list, count, t := CollectPage(idx, namespaces, above, list, count, found + Tagged(idx, got));
      got := got + OnPage(above);
      if t == 0 {
        break;
      }
    }
    assert got + [] == got;
  }

  /** The sets still in the mask are the ones still to be listed. */
  ghost predicate Remaining(r: Report, mask: nat, sets: nat, found: seq<Found>)
    requires ValidReport(r)
  {
    ListedAll(r, mask) == found + ListedAll(r, sets)
  }

  lemma RemainingStep(r: Report, mask: nat, sets: nat, found: seq<Found>)
    requires ValidReport(r) && sets > 0 && Remaining(r, mask, sets, found)
    ensures 0 < Pow2(LowestBit(sets)) <= sets
    ensures Remaining(r, mask, sets - Pow2(LowestBit(sets)), found + Tagged(LowestBit(sets), Listed(r,
              LowestBit(sets), 0)))
  {
    ListedAllStep(r, sets);
  }

  lemma RemainingEnds(r: Report, mask: nat)
    requires ValidReport(r)
    ensures Remaining(r, mask, mask, [])
    ensures forall found | Remaining(r, mask, 0, found) :: found == ListedAll(r, mask)
    ensures Reversed([]) == []
  {
    assert ListedAll(r, 0) == [];
  }

  /** `nvme_list_namespaces`, for a set mask below 2 to the 31.  `list` is the linked list, its newest node first. */
  method ListNamespaces(r: Report, mask: nat) returns (list: seq<Found>, count: nat)
    requires ValidReport(r) && mask < TWO_TO_THE_31
    ensures list == Reversed(ListedAll(r, mask)) && count == |ListedAll(r, mask)|
  {
    hide *;
    var sets: nat := mask;
    list, count := [], 0;
    ghost var found := [];
    RemainingEnds(r, mask);
    while sets != 0
      invariant list == Reversed(found) && count == |found|
      invariant Remaining(r, mask, sets, found)
      decreases sets
    {
      RemainingStep(r, mask, sets, found);
      var idx := LowestBit(sets);
      list, count := ListSet(r, idx, list, count, found);
      found := found + Tagged(idx, Listed(r, idx, 0));
      sets := sets - Pow2(idx);
    }
  }

  lemma ListedAllStep(r: Report, sets: nat)
    requires ValidReport(r)
    ensures sets == 0 ==> ListedAll(r, sets) == []
    ensures sets > 0 ==>
              var c := LowestBit(sets);
              && Pow2(c) <= sets
              && ListedAll(r, sets) == Tagged(c, Listed(r, c, 0)) + ListedAll(r, sets - Pow2(c))
  {
    if sets > 0 {
      ClearLowest(sets, 0);
    }
  }

  /** A set is listed up to the page whose command fails, and in full when none does. */
  lemma {:induction false} ListedIsPrefix(r: Report, c: nat, t: nat)
    requires ValidReport(r)
    ensures Listed(r, c, t) <= Above(r.ids(c), t)
    ensures (forall u :: !r.fails(c, u)) ==> Listed(r, c, t) == Above(r.ids(c), t)
    decreases |Above(r.ids(c), t)|
  {
    var above := Above(r.ids(c), t);
    if !r.fails(c, t) && |above| >= PAGE_ENTRIES {
      AboveDrops(r.ids(c), t, PAGE_ENTRIES);
      ListedIsPrefix(r, c, above[PAGE_ENTRIES - 1]);
      assert above == above[..PAGE_ENTRIES] + above[PAGE_ENTRIES..];
    }
  }

  predicate Before(a: Found, b: Found) {
    a.commandSet < b.commandSet || (a.commandSet == b.commandSet && a.nsid < b.nsid)
  }

  ghost predicate InOrder(fs: seq<Found>) {
    forall i, j | 0 <= i < j < |fs| :: Before(fs[i], fs[j])
  }

  ghost predicate HoldsExactly(r: Report, mask: nat, fs: seq<Found>) {
    forall f: Found :: f in fs <==> Bit(mask, f.commandSet) && f.nsid in r.ids(f.commandSet)
  }

  /** Each pair of an enabled command set and an active namespace is found once, and nothing else is. */
  lemma {:induction false} EachNamespaceOnce(r: Report, mask: nat)
    requires ValidReport(r) && forall c, t :: !r.fails(c, t)
    ensures InOrder(ListedAll(r, mask)) && HoldsExactly(r, mask, ListedAll(r, mask))
    decreases mask
  {
    hide *;
    ListedAllStep(r, mask);
    if mask == 0 {
      EmptyMask(r);
    } else {
      var c0 := LowestBit(mask);
      EachNamespaceOnce(r, mask - Pow2(c0));
      SetInFull(r, c0);
      FirstSetThenRest(r, mask, r.ids(c0), ListedAll(r, mask - Pow2(c0)));
    }
  }

  lemma SetInFull(r: Report, c: nat)
    requires ValidReport(r) && forall t :: !r.fails(c, t)
    ensures Listed(r, c, 0) == r.ids(c)
  {
    ListedIsPrefix(r, c, 0);
    AboveZero(r.ids(c));
  }

  lemma EmptyMask(r: Report)
    ensures InOrder([]) && HoldsExactly(r, 0, [])
  {
    forall c
      ensures !Bit(0, c)
    {
      NoBits(c);
    }
  }

  lemma {:induction false} NoBits(i: nat)
    ensures !Bit(0, i)
    decreases i
  {
    if i > 0 {
      NoBits(i - 1);
    }
  }

  lemma FirstSetThenRest(r: Report, mask: nat, ids: seq<nat>, rest: seq<Found>)
    requires ValidReport(r) && mask > 0 && ids == r.ids(LowestBit(mask)) && Pow2(LowestBit(mask)) <= mask
    requires InOrder(rest) && HoldsExactly(r, mask - Pow2(LowestBit(mask)), rest)
    ensures InOrder(Tagged(LowestBit(mask), ids) + rest) && HoldsExactly(r, mask, Tagged(LowestBit(mask), ids) + rest)
  {
    var c0 := LowestBit(mask);
    var tagged := Tagged(c0, ids);
    ClearLowest(mask, c0);
    forall f: Found
      ensures f in rest ==> c0 < f.commandSet
      ensures f in tagged + rest <==> Bit(mask, f.commandSet) && f.nsid in r.ids(f.commandSet)
    {
      ClearLowest(mask, f.commandSet);
      TaggedMembers(c0, ids, f);
    }
    assert forall j | 0 <= j < |rest| :: rest[j] in rest;
  }

  lemma TaggedMembers(c: nat, ids: seq<nat>, f: Found)
    ensures f in Tagged(c, ids) <==> f.commandSet == c && f.nsid in ids
  {
    if f.commandSet == c && f.nsid in ids {
      var i :| 0 <= i < |ids| && ids[i] == f.nsid;
      assert Tagged(c, ids)[i] == f;
    }
  }

  // ---------------------------------------------------------------- queue pairs

  /** `nvme_qpair_t`, but for its rings. */
  datatype QPair = QPair(id: nat, phase: bool)

  function AsU16(x: nat): nat {
    x % 0x1_0000
  }

  /** The number of queue pairs that `init_nvme` asks for: a 16-bit product of a 16-bit count. */
  function Requested(namespaces: nat, processors: nat): nat {
    AsU16(AsU16(namespaces) * processors)
  }

  /** The request is the product reduced to 16 bits. */
  lemma RequestedIsProduct(namespaces: nat, processors: nat)
    ensures Requested(namespaces, processors) < 0x1_0000
    ensures (namespaces * processors - Requested(namespaces, processors)) % 0x1_0000 == 0
    ensures namespaces * processors < 0x1_0000 ==> Requested(namespaces, processors) == namespaces * processors
  {
    var q, low := namespaces / 0x1_0000, AsU16(namespaces);
    var q', low' := low * processors / 0x1_0000, Requested(namespaces, processors);
    assert namespaces * processors == (q * 0x1_0000 + low) * processors;
    assert namespaces * processors == (q * processors) * 0x1_0000 + low * processors;
    assert low * processors == q' * 0x1_0000 + low';
    assert namespaces * processors - low' == (q * processors + q') * 0x1_0000;
    DivModIs(namespaces * processors - low', 0x1_0000, q * processors + q', 0);
    if namespaces * processors < 0x1_0000 {
      DivModIs(namespaces * processors, 0x1_0000, 0, namespaces * processors);
      DivModIs(namespaces * processors, 0x1_0000, q * processors + q', low');
    }
  }

  /** `state->qpairs` of the driver. */
  class Queues {
    var requested: nat
    var granted: nat
    var init: nat
    var qs: array<QPair>

    /** `init_nvme` up to the namespaces: the granted pairs are created with `nvme_create_io_qpairs`. */
    constructor (namespaces: nat, processors: nat, granted: nat)
      ensures this.requested == Requested(namespaces, processors) && this.granted == granted && init == 0
      ensures requested < 0x1_0000 && (namespaces * processors - requested) % 0x1_0000 == 0
      ensures namespaces * processors < 0x1_0000 ==> requested == namespaces * processors
      ensures qs.Length == if requested < granted then requested else granted
      ensures forall i | 0 <= i < qs.Length :: qs[i] == QPair(i + 1, true)
      ensures fresh(qs)
    {
      RequestedIsProduct(namespaces, processors);
      requested := AsU16(AsU16(namespaces) * processors);
      this.granted := granted;
      init := 0;
      qs := new QPair[Min(AsU16(AsU16(namespaces) * processors), granted)];
      new;
      var i := 0;
      while i < qs.Length
        invariant i <= qs.Length && fresh(qs)
        invariant forall k | 0 <= k < i :: qs[k] == QPair(k + 1, true)
        invariant requested == Requested(namespaces, processors) && this.granted == granted && init == 0
        invariant qs.Length == Min(Requested(namespaces, processors), granted)
      {
        qs[i] := QPair(i + 1, true);
        i := i + 1;
      }
    }

    /** The claim of `init_nvme_namespace`. */
    method Claim(processors: nat) returns (base: nat, count: nat)
      modifies this`init
      ensures base == old(init) && count == Min(processors, granted) && init == base + count
    {
      base := init;
      count := Min(processors, granted);
      init := init + count;
    }

    /** The queue pair that `namespace_rw_page` takes for a namespace whose pairs start at `base`. */
    method PairFor(base: nat, cpu: nat) returns (pair: Option<QPair>)
      ensures pair.Some? <==> base + cpu < qs.Length
      ensures pair.Some? ==> pair.value == qs[base + cpu]
    {
      var index := cpu + base;
      return if index < qs.Length then Some(qs[index]) else None;
    }

    /** The namespaces of the list, one after the other.  `inside` says whether every pair that a namespace registers
        is one that was created. */
    method ClaimAll(namespaces: nat, processors: nat) returns (bases: seq<nat>, inside: bool)
      requires init == 0
      modifies this`init
      ensures |bases| == namespaces
      ensures forall k | 0 <= k < namespaces :: bases[k] == BaseOf(k, processors, granted)
      ensures inside <==> forall k | 0 <= k < namespaces ::
                BaseOf(k, processors, granted) + Min(processors, granted) <= qs.Length
    {
      bases, inside := [], true;
      var k := 0;
      while k < namespaces
        invariant k <= namespaces && |bases| == k && init == BaseOf(k, processors, granted)
        invariant forall j | 0 <= j < k :: bases[j] == BaseOf(j, processors, granted)
        invariant inside <==> forall j | 0 <= j < k ::
                    BaseOf(j, processors, granted) + Min(processors, granted) <= qs.Length
      {
        var base, count := Claim(processors);
        if base + count > qs.Length {
          inside := false;
        }
        bases := bases + [base];
        BaseSteps(k, processors, granted);
        k := k + 1;
      }
    }
  }

  /** The first queue pair of the `k`-th namespace. */
  function BaseOf(k: nat, processors: nat, granted: nat): nat {
    ProductOfNats(k, Min(processors, granted));
    k * Min(processors, granted)
  }

  /** The queue pair that `namespace_rw_page` uses on processor `cpu` for the `k`-th namespace. */
  function PairOf(k: nat, cpu: nat, processors: nat, granted: nat): nat {
    BaseOf(k, processors, granted) + cpu
  }

  lemma BaseSteps(k: nat, processors: nat, granted: nat)
    ensures BaseOf(k + 1, processors, granted) == BaseOf(k, processors, granted) + Min(processors, granted)
  {
    assert (k + 1) * Min(processors, granted) == k * Min(processors, granted) + Min(processors, granted);
  }

  /** Registration stays inside the created pairs, and so does the pair that any processor uses for any namespace. */
  ghost predicate StaysInside(namespaces: nat, processors: nat, granted: nat) {
    var created := Min(Requested(namespaces, processors), granted);
    && (forall k: nat | k < namespaces :: BaseOf(k, processors, granted) + Min(processors, granted) <= created)
    && (forall k: nat, cpu: nat | k < namespaces && cpu < processors :: PairOf(k, cpu, processors, granted) < created)
  }

  /** That is so exactly when a pair was granted for every namespace and processor. */
  lemma StaysInsideIff(namespaces: nat, processors: nat, granted: nat)
    requires namespaces > 0 && processors > 0 && 0 < granted < 0x1_0000
    ensures StaysInside(namespaces, processors, granted) <==> namespaces * processors <= granted
  {
    ProductAtLeast(namespaces, processors);
    if namespaces * processors <= granted {
      assert Requested(namespaces, processors) == namespaces * processors;
      forall k: nat | k < namespaces
        ensures BaseOf(k, processors, granted) + processors <= namespaces * processors
      {
        BaseSteps(k, processors, granted);
        MultipleGrows(k + 1, namespaces, processors);
      }
    } else if StaysInside(namespaces, processors, granted) {
      assert PairOf(namespaces - 1, processors - 1, processors, granted) < granted;
      BaseSteps(namespaces - 1, processors, granted);
    }
  }

  lemma ProductAtLeast(a: nat, b: nat)
    requires a > 0 && b > 0
    ensures a <= a * b && b <= a * b
  {
    MultipleIsLarge(a, b);
    MultipleIsLarge(b, a);
  }

  /** Namespace and processor that queue pair `i` belongs to. */
  function UserOf(i: nat, processors: nat): (nat, nat)
    requires processors > 0
  {
    DivModSplit(i, processors);
    (i / processors, i % processors)
  }

  /** Then each namespace and processor has a queue pair of its own, and each pair that was claimed one user: the
      claims tile the first `namespaces * processors` pairs. */
  lemma ClaimsTile(namespaces: nat, processors: nat, granted: nat)
    requires namespaces > 0 && processors > 0 && namespaces * processors <= granted
    ensures forall k: nat, cpu: nat | k < namespaces && cpu < processors ::
              PairOf(k, cpu, processors, granted) == k * processors + cpu < namespaces * processors
              && UserOf(PairOf(k, cpu, processors, granted), processors) == (k, cpu)
    ensures forall i: nat | i < namespaces * processors ::
              var (k, cpu) := UserOf(i, processors);
              k < namespaces && cpu < processors && PairOf(k, cpu, processors, granted) == i
  {
    ProductAtLeast(namespaces, processors);
    forall k: nat, cpu: nat | k < namespaces && cpu < processors
      ensures PairOf(k, cpu, processors, granted) == k * processors + cpu < namespaces * processors
      ensures UserOf(PairOf(k, cpu, processors, granted), processors) == (k, cpu)
    {
      DivModIs(k * processors + cpu, processors, k, cpu);
      DivBelow(k * processors + cpu, processors, namespaces);
    }
    forall i: nat | i < namespaces * processors
      ensures var (k, cpu) := UserOf(i, processors);
              k < namespaces && cpu < processors && PairOf(k, cpu, processors, granted) == i
    {
      DivModSplit(i, processors);
      DivBelow(i, processors, namespaces);
    }
  }

  /** When the product fits 16 bits and is granted, these are all the pairs that are created. */
  lemma ClaimsCoverCreated(namespaces: nat, processors: nat, granted: nat)
    requires namespaces * processors < 0x1_0000 && namespaces * processors <= granted
    ensures Min(Requested(namespaces, processors), granted) == namespaces * processors
  {
    RequestedIsProduct(namespaces, processors);
  }
}
