// The generated driver tables, and the kernel's search in them.

module DriverTable {
  import opened Bytes
  import opened Options
  import opened DriverIndices

  // ---------------------------------------------------------------- the generator

  /** The largest index of a dictionary, and a key that has it. */
  method Largest(t: Table) returns (n: string)
    requires t.names != [] && forall m :: m in t.names <==> m in t.index
    ensures n in t.index && forall m | m in t.index :: t.index[m] <= t.index[n]
  {
    n := t.names[0];
    for i := 1 to |t.names|
      invariant n in t.index && forall k | 0 <= k < i :: t.index[t.names[k]] <= t.index[n]
    {
      if t.index[t.names[i]] > t.index[n] {
        n := t.names[i];
      }
    }
  }

  /** Every key has a line below the entry count, and some line needs the last entry. */
  ghost predicate IsEntryCount(t: Table, count: int) {
    && (forall n | n in t.index :: t.index[n] < count)
    && (t.index == map[] ==> count == 0)
    && (t.index != map[] ==> exists n :: n in t.index && t.index[n] == count - 1)
  }

  /** Of the first `end` keys of the dictionary, key `k` is the last one with index `i`. */
  ghost predicate IsLastAt(t: Table, end: nat, k: nat, i: int)
    requires end <= |t.names| && forall n | n in t.names :: n in t.index
  {
    && k < end && t.index[t.names[k]] == i
    && forall l | k < l < end :: t.index[t.names[l]] != i
  }

  /** The lines of one table: NULL, or the driver that is last among those with that index. */
  ghost predicate IsTableOf(t: Table, lines: seq<Option<string>>) {
    && (forall n :: n in t.names <==> n in t.index)
    && (forall n | n in t.index && t.index[n] >= 0 :: t.index[n] < |lines| && lines[t.index[n]].Some?)
    && (forall i | 0 <= i < |lines| && lines[i].Some? :: lines[i].value in t.index && t.index[lines[i].value] == i)
    && (forall i, k: nat | 0 <= i < |lines| && IsLastAt(t, |t.names|, k, i) :: lines[i] == Some(t.names[k]))
  }

  /** The table of one group in `construct_dri_defs_source`; `patch_definitions` has made it an empty dictionary if
      no driver registers in the group. */
  method BuildTable(t: Table) returns (lines: seq<Option<string>>, ghost count: int)
    requires forall m :: m in t.names <==> m in t.index
    ensures IsEntryCount(t, count) && |lines| == (if count > 0 then count else 0)
    ensures IsTableOf(t, lines)
  {
    var entries := 0;
    if t.names != [] {
      var n := Largest(t);
      entries := t.index[n] + 1;
    } else {
      assert forall m :: m !in t.index;
      assert t.index == map[];
    }
    count := entries;
    lines := seq(if entries > 0 then entries else 0, _ => None);
    for k := 0 to |t.names|
      invariant |lines| == if entries > 0 then entries else 0
      invariant forall j | 0 <= j < k && t.index[t.names[j]] >= 0 :: lines[t.index[t.names[j]]].Some?
      invariant forall i | 0 <= i < |lines| && lines[i].Some? ::
                  lines[i].value in t.index && t.index[lines[i].value] == i
      invariant forall i, j: nat | 0 <= i < |lines| && IsLastAt(t, k, j, i) :: lines[i] == Some(t.names[j])
    {
      var idx := t.index[t.names[k]];
      if idx >= 0 {
        lines := lines[idx := Some(t.names[k])];
      }
    }
  }

  /** The table holds every driver with an index at that index exactly when no two share one; otherwise one of the two
      is lost. */
  lemma TableHoldsAllIff(t: Table, lines: seq<Option<string>>)
    requires IsTableOf(t, lines)
    ensures (forall n | n in t.index && t.index[n] >= 0 :: lines[t.index[n]] == Some(n)) <==> Injective(t)
  {}

  /** From registrations to the table: each driver that a group registers stands at its index in the group's table
      exactly when the drivers are separated by drivers of the cluster's last listed group. */
  lemma RegisteredDriversAreFoundIff(reg: map<string, seq<string>>, groups: seq<string>, clusters: seq<seq<string>>,
                                     symbols: seq<string>, g0: string, h: string, lines: seq<Option<string>>)
    requires Generates(reg, groups, clusters, symbols) && g0 in groups && h in ClusterOf(clusters, g0)
    requires h in Generated(reg, groups, clusters, symbols).state.defs
    requires IsTableOf(Generated(reg, groups, clusters, symbols).state.defs[h], lines)
    ensures h in reg && Last(ClusterOf(clusters, g0)) in reg
    ensures var index := Generated(reg, groups, clusters, symbols).state.defs[h].index;
            && (forall n | n in reg[h] :: n in index && 0 <= index[n] < |lines|)
            && ((forall n | n in reg[h] :: lines[index[n]] == Some(n)) <==>
                Separated(MetNames(reg, groups, clusters, g0), reg[h], reg[Last(ClusterOf(clusters, g0))]))
  {
    ClusterIsRanked(reg, groups, clusters, symbols, g0, h);
    InjectiveIff(reg, groups, clusters, symbols, g0, h);
    hide Generated, Generates, ClusterOf, MetNames, Separated, Last, Rank;
    TableHoldsAllIff(Generated(reg, groups, clusters, symbols).state.defs[h], lines);
  }

  /** The table of two colliding drivers has lost one of them. */
  lemma CollidingTableLosesOne(lines: seq<Option<string>>)
    requires var r := Generated(COLLIDING, COLLIDING_GROUPS, [COLLIDING_GROUPS], COLLIDING_GROUPS);
             r.Ok? && "super" in r.state.defs && IsTableOf(r.state.defs["super"], lines)
    ensures Some("x") !in lines || Some("y") !in lines
  {
    TwoDriversCollide();
    hide Generated, Generates;
  }

  // ---------------------------------------------------------------- the kernel

  /** `ARC_DRIDEF_CODES_TERMINATOR`. */
  const TERMINATOR: nat := 0xFFFF_FFFF_FFFF_FFFF

  /** What the kernel uses of a driver definition: what its `init` returns, or NULL, and its list of codes, or NULL. */
  datatype Driver = Driver(init: Option<int>, codes: Option<seq<nat>>)

  /** The codes before the first terminator. */
  function Codes(list: seq<nat>): (codes: seq<nat>)
    ensures codes <= list && TERMINATOR !in codes
    ensures TERMINATOR in list ==> |codes| < |list| && list[|codes|] == TERMINATOR
  {
    if list == [] || list[0] == TERMINATOR then [] else [list[0]] + Codes(list[1..])
  }

  predicate Carries(entry: Option<Driver>, target: nat) {
    entry.Some? && entry.value.codes.Some? && target in Codes(entry.value.codes.value)
  }

  predicate IsFirst(table: seq<Option<Driver>>, target: nat, i: nat) {
    && i < |table| && Carries(table[i], target)
    && forall k | 0 <= k < i :: !Carries(table[k], target)
  }

  predicate ValidTable(table: seq<Option<Driver>>) {
    forall i | 0 <= i < |table| :: table[i].Some? && table[i].value.codes.Some? ==>
        TERMINATOR in table[i].value.codes.value
  }

  /** The terminator is the first word of the list that is not one of its codes. */
  lemma {:induction false} CodeAt(list: seq<nat>, code: nat)
    requires TERMINATOR in list && code <= |Codes(list)|
    ensures code < |list| && (list[code] == TERMINATOR <==> code == |Codes(list)|)
    ensures code < |Codes(list)| ==> Codes(list)[code] == list[code]
    ensures |Codes(list)| < |list|
    decreases code
  {
    if code > 0 {
      assert TERMINATOR in list[1..];
      CodeAt(list[1..], code - 1);
    }
  }

  /** The inner loop of `internal_find_code`. */
  method HasCode(list: seq<nat>, target: nat) returns (found: bool)
    requires TERMINATOR in list
    ensures found <==> target in Codes(list)
  {
    hide *;
    var code := 0;
    CodeAt(list, 0);
    while list[code] != TERMINATOR
      invariant code <= |Codes(list)| < |list| && target !in Codes(list)[..code]
      invariant list[code] == TERMINATOR <==> code == |Codes(list)|
      decreases |list| - code
    {
      CodeAt(list, code);
      if list[code] == target {
        return true;
      }
      code := code + 1;
      CodeAt(list, code);
    }
    assert Codes(list)[..code] == Codes(list);
    return false;
  }

  /** `internal_find_code`, on the table of a group. */
  method FindCode(table: seq<Option<Driver>>, target: nat) returns (r: int)
    requires ValidTable(table)
    ensures -1 <= r < |table|
    ensures r == -1 ==> forall i | 0 <= i < |table| :: !Carries(table[i], target)
    ensures r >= 0 ==> IsFirst(table, target, r)
  {
    var i := 0;
    while i < |table|
      invariant i <= |table| && forall k | 0 <= k < i :: !Carries(table[k], target)
    {
      if table[i].Some? && table[i].value.codes.Some? {
        var found := HasCode(table[i].value.codes.value, target);
        if found {
          return i;
        }
      }
      i := i + 1;
    }
    return -1;
  }

  // ---------------------------------------------------------------- from registrations to the search

  predicate AllDefined(lines: seq<Option<string>>, drivers: map<string, Driver>) {
    forall i | 0 <= i < |lines| && lines[i].Some? :: lines[i].value in drivers
  }

  /** A group's table as it is linked into the kernel: for each name the driver that is defined under it. */
  function Linked(lines: seq<Option<string>>, drivers: map<string, Driver>): (table: seq<Option<Driver>>)
    requires AllDefined(lines, drivers)
    ensures |table| == |lines|
    ensures forall i | 0 <= i < |lines| ::
              table[i] == if lines[i].Some? then Some(drivers[lines[i].value]) else None
  {
    seq(|lines|, i requires 0 <= i < |lines| => if lines[i].Some? then Some(drivers[lines[i].value]) else None)
  }

  /** The search for `target` in the linked table stops at line `k` or before. */
  ghost predicate FoundBy(lines: seq<Option<string>>, drivers: map<string, Driver>, target: nat, k: int)
    requires AllDefined(lines, drivers)
  {
    exists i: nat :: i <= k && IsFirst(Linked(lines, drivers), target, i)
  }

  /** Every driver of `own` that carries a code is found by it at its own line, or a driver on a line before is. */
  ghost predicate AllFound(t: Table, own: seq<string>, lines: seq<Option<string>>)
    requires forall n | n in own :: n in t.index
  {
    forall drivers: map<string, Driver>, n, target |
      && AllDefined(lines, drivers) && n in own && n in drivers && Carries(Some(drivers[n]), target) ::
      FoundBy(lines, drivers, target, t.index[n])
  }

  lemma {:induction false} SomeIsFirst(table: seq<Option<Driver>>, target: nat, k: nat) returns (i: nat)
    requires k < |table| && Carries(table[k], target)
    ensures i <= k && IsFirst(table, target, i)
    decreases k
  {
    if j: nat :| j < k && Carries(table[j], target) {
      i := SomeIsFirst(table, target, j);
    } else {
      i := k;
    }
  }

  lemma StandingIsFound(t: Table, own: seq<string>, lines: seq<Option<string>>)
    requires forall n | n in own :: n in t.index && 0 <= t.index[n] < |lines| && lines[t.index[n]] == Some(n)
    ensures AllFound(t, own, lines)
  {
    hide Carries, IsFirst;
    forall drivers: map<string, Driver>, n, target |
      && AllDefined(lines, drivers) && n in own && n in drivers && Carries(Some(drivers[n]), target)
      ensures FoundBy(lines, drivers, target, t.index[n])
    {
      assert Linked(lines, drivers)[t.index[n]] == Some(drivers[n]);
      var i := SomeIsFirst(Linked(lines, drivers), target, t.index[n]);
    }
  }

  /** `names` with driver `n` alone carrying a code. */
  function OneCoded(names: set<string>, n: string): map<string, Driver> {
    map m | m in names :: Driver(None, if m == n then Some([0, TERMINATOR]) else None)
  }

  lemma LostIsNotFound(t: Table, own: seq<string>, lines: seq<Option<string>>, n: string)
    requires forall m | m in own :: m in t.index
    requires IsTableOf(t, lines) && n in own && 0 <= t.index[n] < |lines| && lines[t.index[n]] != Some(n)
    ensures !AllFound(t, own, lines)
  {
    var drivers := OneCoded(t.index.Keys, n);
    assert AllDefined(lines, drivers);
    assert [0, TERMINATOR][0] == 0 && Codes([0, TERMINATOR]) == [0] + Codes([0, TERMINATOR][1..]);
    assert Carries(Some(drivers[n]), 0);
    forall i: nat | i < |lines|
      ensures !Carries(Linked(lines, drivers)[i], 0)
    {
      assert lines[i] != Some(n);
    }
    assert !FoundBy(lines, drivers, 0, t.index[n]);
  }

  /** From registrations to the search: whatever drivers are defined and whatever codes they carry, each driver that a
      group registers is found by its codes, or one before it is, under exactly the condition that each stands at its
      index. */
  lemma CodesAreFoundIff(reg: map<string, seq<string>>, groups: seq<string>, clusters: seq<seq<string>>,
                         symbols: seq<string>, g0: string, h: string, lines: seq<Option<string>>)
    requires Generates(reg, groups, clusters, symbols) && g0 in groups && h in ClusterOf(clusters, g0)
    requires h in Generated(reg, groups, clusters, symbols).state.defs
    requires IsTableOf(Generated(reg, groups, clusters, symbols).state.defs[h], lines)
    ensures h in reg && Last(ClusterOf(clusters, g0)) in reg
    ensures forall n | n in reg[h] :: n in Generated(reg, groups, clusters, symbols).state.defs[h].index
    ensures AllFound(Generated(reg, groups, clusters, symbols).state.defs[h], reg[h], lines) <==>
            Separated(MetNames(reg, groups, clusters, g0), reg[h], reg[Last(ClusterOf(clusters, g0))])
  {
    RegisteredDriversAreFoundIff(reg, groups, clusters, symbols, g0, h, lines);
    hide *;
    var t := Generated(reg, groups, clusters, symbols).state.defs[h];
    if n :| n in reg[h] && lines[t.index[n]] != Some(n) {
      LostIsNotFound(t, reg[h], lines, n);
    } else {
      StandingIsFound(t, reg[h], lines);
    }
  }

  /** What the search finds is a driver that the group registers. */
  lemma FoundIsRegistered(reg: map<string, seq<string>>, groups: seq<string>, clusters: seq<seq<string>>,
                          symbols: seq<string>, g0: string, h: string, lines: seq<Option<string>>,
                          drivers: map<string, Driver>, target: nat, i: nat)
    requires Generates(reg, groups, clusters, symbols) && g0 in groups && h in ClusterOf(clusters, g0)
    requires h in Generated(reg, groups, clusters, symbols).state.defs
    requires IsTableOf(Generated(reg, groups, clusters, symbols).state.defs[h], lines)
    requires AllDefined(lines, drivers) && IsFirst(Linked(lines, drivers), target, i)
    ensures i < |lines| && lines[i].Some? && h in reg && lines[i].value in reg[h]
  {
    ClusterIsRanked(reg, groups, clusters, symbols, g0, h);
    hide Generated, Generates, ClusterOf, MetNames, Last, Rank;
  }

  // ---------------------------------------------------------------- resources

  datatype Resource = Resource(id: nat, group: nat, index: nat)

  /** The code that stands for a PCI function in the driver definitions. */
  function PciCode(vendor: nat, device: nat): nat {
    vendor * 0x1_0000 + device
  }

  /** A PCI code is its vendor in the high half of 32 bits and its device in the low half. */
  lemma PciCodeHolds(vendor: nat, device: nat, code: nat)
    requires vendor < 0x1_0000 && device < 0x1_0000
    ensures PciCode(vendor, device) < TWO_TO_THE_32
    ensures PciCode(vendor, device) / 0x1_0000 == vendor && PciCode(vendor, device) % 0x1_0000 == device
    ensures code / 0x1_0000 == vendor && code % 0x1_0000 == device <==> code == PciCode(vendor, device)
    ensures PciCode(0x8086, 0x100E) == 0x8086_100E
  {
    assert code == code / 0x1_0000 * 0x1_0000 + code % 0x1_0000;
  }

  class Resources {
    const tables: seq<seq<Option<Driver>>>
    const pciGroup: nat
    var currentId: nat

    constructor (tables: seq<seq<Option<Driver>>>, pciGroup: nat)
      ensures this.tables == tables && this.pciGroup == pciGroup && currentId == 0
    {
      this.tables, this.pciGroup, currentId := tables, pciGroup, 0;
    }

    /** A driver stands there and has an `init`. */
    predicate Initializable(group: int, index: int)
    {
      && 0 <= group < |tables| && 0 <= index < |tables[group]|
      && tables[group][index].Some? && tables[group][index].value.init.Some?
    }

    /** `init_resource`. */
    method InitResource(group: int, index: int) returns (r: Option<Resource>)
      modifies this`currentId
      ensures r.Some? <==> Initializable(group, index) && tables[group][index].value.init.value == 0
      ensures r.Some? ==> r.value == Resource(old(currentId), group, index)
      ensures currentId == old(currentId) + (if Initializable(group, index) then 1 else 0)
    {
      var entryCount := if 0 <= group < |tables| then |tables[group]| else 0;
      if group < 0 || index < 0 || group >= |tables| || index >= entryCount {
        return None;
      }
      var def := tables[group][index];
      if def.None? || def.value.init.None? {
        return None;
      }
      currentId := currentId + 1;
      var id := currentId - 1;
      if def.value.init.value != 0 {
        return None;
      }
      return Some(Resource(id, group, index));
    }

    /** `init_pci_resource`: the resource of the first driver that lists the function's vendor and device as one number;
        none when none does, since the search then yields an index that `init_resource` refuses. */
    method InitPciResource(vendor: nat, device: nat) returns (r: Option<Resource>)
      requires vendor < 0x1_0000 && device < 0x1_0000
      requires pciGroup < |tables| && ValidTable(tables[pciGroup])
      modifies this`currentId
      ensures r.Some? ==> r.value.group == pciGroup
      ensures forall code: nat | code / 0x1_0000 == vendor && code % 0x1_0000 == device ::
                && (r.Some? ==> IsFirst(tables[pciGroup], code, r.value.index))
                && ((forall i | 0 <= i < |tables[pciGroup]| :: !Carries(tables[pciGroup][i], code)) ==>
                      r.None? && currentId == old(currentId))
      ensures forall code: nat, i: nat |
                && code / 0x1_0000 == vendor && code % 0x1_0000 == device && !(vendor == device == 0xFFFF)
                && IsFirst(tables[pciGroup], code, i) ::
                && (r.Some? <==> Initializable(pciGroup, i) && tables[pciGroup][i].value.init.value == 0)
                && currentId == old(currentId) + (if Initializable(pciGroup, i) then 1 else 0)
      ensures vendor == device == 0xFFFF ==> r.None? && currentId == old(currentId)
    {
      if vendor == 0xFFFF && device == 0xFFFF {
        return None;
      }
      PciCodeHolds(vendor, device, 0);
      forall code: nat {
        PciCodeHolds(vendor, device, code);
      }
      var index := FindCode(tables[pciGroup], PciCode(vendor, device));
      assert forall i: nat | IsFirst(tables[pciGroup], PciCode(vendor, device), i) :: i == index;
      r := InitResource(pciGroup, index);
    }
  }

  /** Different PCI functions have different codes, and none has the terminator's. */
  lemma PciCodesDiffer(vendor: nat, device: nat, vendor': nat, device': nat)
    requires device < 0x1_0000 && device' < 0x1_0000 && vendor < 0x1_0000
    ensures PciCode(vendor, device) == PciCode(vendor', device') <==> vendor == vendor' && device == device'
    ensures PciCode(vendor, device) < TERMINATOR
  {}
}
