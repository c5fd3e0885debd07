// The driver table generator: how names that are registered in several driver groups get their table indices.

module DriverIndices {
  const UNASSIGNED: int := -1
  const ABSENT: int := -100

  /** A Python dictionary from driver names to indices: its keys in insertion order, and its values. */
  datatype Table = Table(names: seq<string>, index: map<string, int>)

  /** The two dictionaries of `fill_in_indices`: `definitions` and `indices`. */
  datatype State = State(defs: map<string, Table>, next: map<string, int>)

  /** The script's ways to end: with the definitions, with its own message about an unknown group, or with an
      uncaught `KeyError`. */
  datatype Result = Ok(state: State) | UnknownGroup(group: string) | MissingKey

  // ---------------------------------------------------------------- one name

  /** The first cluster that lists `g`, or `g` alone. */
  function ClusterOf(clusters: seq<seq<string>>, g: string): (c: seq<string>)
    ensures g in c
  {
    if clusters == [] then [g]
    else if g in clusters[0] then clusters[0]
    else ClusterOf(clusters[1..], g)
  }

  lemma {:induction false} ClusterIsFirst(clusters: seq<seq<string>>, g: string, i: nat)
    requires i <= |clusters| && forall j | 0 <= j < i :: g !in clusters[j]
    ensures i < |clusters| && g in clusters[i] ==> ClusterOf(clusters, g) == clusters[i]
    ensures i == |clusters| ==> ClusterOf(clusters, g) == [g]
    decreases i
  {
    if i > 0 {
      assert g !in clusters[0];
      ClusterIsFirst(clusters[1..], g, i - 1);
    }
  }

  function Last(c: seq<string>): (l: string)
    requires c != []
    ensures l in c
  {
    c[|c| - 1]
  }

  predicate Registers(t: Table, n: string) {
    n in t.index && t.index[n] == UNASSIGNED
  }

  /** What the update does to one group of the cluster. */
  function Visit(t: Table, n: string, idx: int): Table {
    if n !in t.index then Table(t.names + [n], t.index[n := ABSENT])
    else if t.index[n] == UNASSIGNED then t.(index := t.index[n := idx])
    else t
  }

  function VisitAll(st: State, members: set<string>, n: string, idx: int): State {
    State(map m | m in st.defs :: if m in members then Visit(st.defs[m], n, idx) else st.defs[m],
          map m | m in st.next ::
            if m in members && m in st.defs && Registers(st.defs[m], n) then idx + 1 else st.next[m])
  }

  function Members(c: seq<string>): set<string> {
    set m | m in c
  }

  function FillName(st: State, clusters: seq<seq<string>>, g: string, n: string): Result {
    var c := ClusterOf(clusters, g);
    if g !in st.next then UnknownGroup(g)
    else if !(Members(c) <= st.next.Keys && Members(c) <= st.defs.Keys) then MissingKey
    else Ok(VisitAll(st, Members(c), n, st.next[Last(c)]))
  }

  function FillNames(st: State, clusters: seq<seq<string>>, g: string, names: seq<string>): Result
    decreases |names|
  {
    if names == [] then Ok(st)
    else
      var r := FillName(st, clusters, g, names[0]);
      if r.Ok? then FillNames(r.state, clusters, g, names[1..]) else r
  }

  function FillGroups(st: State, clusters: seq<seq<string>>, groups: seq<string>): Result
    decreases |groups|
  {
    if groups == [] then Ok(st)
    else if groups[0] !in st.defs then MissingKey
    else
      var r := FillNames(st, clusters, groups[0], st.defs[groups[0]].names);
      if r.Ok? then FillGroups(r.state, clusters, groups[1..]) else r
  }

  // ---------------------------------------------------------------- the script

  /** The innermost loop: over `list(set(shared_increment))`, whose order Python does not fix. */
  method UpdateCluster(st: State, members: set<string>, n: string, idx: int) returns (st': State)
    requires members <= st.next.Keys && members <= st.defs.Keys
    ensures st' == VisitAll(st, members, n, idx)
  {
    hide *;
    st' := st;
    var left := members;
    ghost var done := {};
    VisitNone(st, n, idx);
    while left != {}
      invariant members == done + left && done !! left
      invariant st' == VisitAll(st, done, n, idx)
      decreases left
    {
      var m :| m in left;
      VisitOneMore(st, done, m, n, idx);
      var t := st'.defs[m];
      if n !in t.index {
        st' := st'.(defs := st'.defs[m := Table(t.names + [n], t.index[n := ABSENT])]);
      } else if t.index[n] == UNASSIGNED {
        st' := State(st'.defs[m := t.(index := t.index[n := idx])], st'.next[m := idx + 1]);
      }
      left := left - {m};
      done := done + {m};
    }
    assert done == members;
  }

  lemma VisitNone(st: State, n: string, idx: int)
    ensures VisitAll(st, {}, n, idx) == st
  {
    assert VisitAll(st, {}, n, idx).defs == st.defs && VisitAll(st, {}, n, idx).next == st.next;
  }

  /** Visiting one group more, by the three branches of the update. */
  lemma VisitOneMore(st: State, done: set<string>, m: string, n: string, idx: int)
    requires m !in done && m in st.defs && m in st.next
    ensures var a, b, t := VisitAll(st, done, n, idx), VisitAll(st, done + {m}, n, idx), st.defs[m];
            && m in a.defs && a.defs[m] == t && m in a.next
            && (n !in t.index ==> b == a.(defs := a.defs[m := Table(t.names + [n], t.index[n := ABSENT])]))
            && (n in t.index && t.index[n] == UNASSIGNED ==>
                  b == State(a.defs[m := t.(index := t.index[n := idx])], a.next[m := idx + 1]))
            && (n in t.index && t.index[n] != UNASSIGNED ==> b == a)
  {
    var a, b, t := VisitAll(st, done, n, idx), VisitAll(st, done + {m}, n, idx), st.defs[m];
    assert b.defs == a.defs[m := Visit(t, n, idx)];
    assert b.next == (if Registers(t, n) then a.next[m := idx + 1] else a.next);
  }

  /** The body of the loop over names: find the cluster, and look up the index in its last listed group. */
  method AssignName(st: State, clusters: seq<seq<string>>, g: string, n: string) returns (r: Result)
    ensures r == FillName(st, clusters, g, n)
  {
    if g !in st.next {
      return UnknownGroup(g);
    }
    var idx := st.next[g];
    var shared := [g];
    var i := 0;
    while i < |clusters|
      invariant i <= |clusters| && shared == [g] && idx == st.next[g]
      invariant ClusterOf(clusters, g) == ClusterOf(clusters[i..], g)
    {
      if g in clusters[i] {
        var cluster := clusters[i];
        var j := 0;
        while j < |cluster|
          invariant j <= |cluster| && shared == [g] + cluster[..j]
          invariant Members(cluster[..j]) <= st.next.Keys
          invariant idx == if j == 0 then st.next[g] else st.next[cluster[j - 1]]
        {
          shared := shared + [cluster[j]];
          assert cluster[j] in Members(cluster);
          if cluster[j] !in st.next {
            return MissingKey;
          }
          idx := st.next[cluster[j]];
          j := j + 1;
        }
        assert cluster[..j] == cluster;
        break;
      }
      i := i + 1;
    }
    var members := set m | m in shared;
    assert members == Members(ClusterOf(clusters, g));
    if !(members <= st.defs.Keys) {
      return MissingKey;
    }
    var st' := UpdateCluster(st, members, n, idx);
    return Ok(st');
  }

  /** `fill_in_indices`; `groups` are the keys of `definitions` in their order. */
  method FillInIndices(definitions: map<string, Table>, groups: seq<string>, clusters: seq<seq<string>>,
                       symbols: seq<string>)
    returns (r: Result)
    requires forall g | g in groups :: g in definitions
    ensures r == FillGroups(State(definitions, ZeroIndices(symbols)), clusters, groups)
  {
    var st := State(definitions, ZeroIndices(symbols));
    ghost var start := st;
    var i := 0;
    while i < |groups|
      invariant i <= |groups|
      invariant FillGroups(start, clusters, groups) == FillGroups(st, clusters, groups[i..])
      invariant st.defs.Keys == definitions.Keys
    {
      assert groups[i..][1..] == groups[i + 1..];
      var names := st.defs[groups[i]].names;
      ghost var before := st;
      var k := 0;
      while k < |names|
        invariant k <= |names| && st.defs.Keys == definitions.Keys
        invariant FillNames(before, clusters, groups[i], names) == FillNames(st, clusters, groups[i], names[k..])
      {
        assert names[k..][1..] == names[k + 1..];
        r := AssignName(st, clusters, groups[i], names[k]);
        if !r.Ok? {
          return;
        }
        st := r.state;
        k := k + 1;
      }
      i := i + 1;
    }
    return Ok(st);
  }

  function ZeroIndices(symbols: seq<string>): map<string, int> {
    map s | s in symbols :: 0
  }

  // ---------------------------------------------------------------- when the script ends well

  /** Everything that giving indices to the names of `g` looks up is there. */
  predicate Resolves(st: State, clusters: seq<seq<string>>, g: string) {
    g in st.next && Members(ClusterOf(clusters, g)) <= st.next.Keys * st.defs.Keys
  }

  ghost predicate NamesGiven(st: State) {
    forall g | g in st.defs :: st.defs[g].names != []
  }

  lemma FillNameKeeps(st: State, clusters: seq<seq<string>>, g: string, n: string)
    ensures FillName(st, clusters, g, n).Ok? <==> Resolves(st, clusters, g)
    ensures Resolves(st, clusters, g) ==>
              var st' := FillName(st, clusters, g, n).state;
              && st'.defs.Keys == st.defs.Keys && st'.next.Keys == st.next.Keys
              && (NamesGiven(st) ==> NamesGiven(st'))
  {}

  lemma {:induction false} FillNamesKeeps(st: State, clusters: seq<seq<string>>, g: string, names: seq<string>)
    ensures FillNames(st, clusters, g, names).Ok? <==> names == [] || Resolves(st, clusters, g)
    ensures FillNames(st, clusters, g, names).Ok? ==>
              var st' := FillNames(st, clusters, g, names).state;
              && st'.defs.Keys == st.defs.Keys && st'.next.Keys == st.next.Keys
              && (NamesGiven(st) ==> NamesGiven(st'))
    decreases |names|
  {
    if names != [] {
      FillNameKeeps(st, clusters, g, names[0]);
      if Resolves(st, clusters, g) {
        FillNamesKeeps(FillName(st, clusters, g, names[0]).state, clusters, g, names[1..]);
      }
    }
  }

  /** The script ends with indices exactly when every group that drivers register in is known, and every group of its
      cluster is known and has drivers of its own. */
  lemma {:induction false} FillsIff(st: State, clusters: seq<seq<string>>, groups: seq<string>)
    requires NamesGiven(st) && forall g | g in groups :: g in st.defs
    ensures FillGroups(st, clusters, groups).Ok? <==> forall g | g in groups :: Resolves(st, clusters, g)
    decreases |groups|
  {
    if groups != [] {
      var g, names := groups[0], st.defs[groups[0]].names;
      FillNamesKeeps(st, clusters, g, names);
      if Resolves(st, clusters, g) {
        var st' := FillNames(st, clusters, g, names).state;
        FillsIff(st', clusters, groups[1..]);
        assert forall h :: Resolves(st', clusters, h) == Resolves(st, clusters, h);
      }
      assert forall h :: h in groups <==> h == g || h in groups[1..];
    }
  }

  /** When it does not, it is because of the first group that does not resolve: the script names that group if the group
      is itself unknown, and dies of a `KeyError` if another group of its cluster is unknown or has no drivers. */
  lemma {:induction false} FailsHow(st: State, clusters: seq<seq<string>>, groups: seq<string>, i: nat)
    requires NamesGiven(st) && forall g | g in groups :: g in st.defs
    requires i < |groups| && !Resolves(st, clusters, groups[i])
    requires forall j | 0 <= j < i :: Resolves(st, clusters, groups[j])
    ensures FillGroups(st, clusters, groups) == if groups[i] !in st.next then UnknownGroup(groups[i]) else MissingKey
    decreases i
  {
    var g, names := groups[0], st.defs[groups[0]].names;
    FillNamesKeeps(st, clusters, g, names);
    if i > 0 {
      var st' := FillNames(st, clusters, g, names).state;
      assert forall h :: Resolves(st', clusters, h) == Resolves(st, clusters, h);
      FailsHow(st', clusters, groups[1..], i - 1);
    }
  }

  // ---------------------------------------------------------------- which index a name gets

  /** How many names of `seen` are registered in the last listed group of the cluster. */
  function Count(seen: seq<string>, last: seq<string>): nat {
    if seen == [] then 0
    else Count(seen[..|seen| - 1], last) + if seen[|seen| - 1] in last then 1 else 0
  }

  /** ... of those before `n`. */
  function Rank(seen: seq<string>, n: string, last: seq<string>): nat {
    if seen == [] then 0
    else
      var k := |seen| - 1;
      if n in seen[..k] then Rank(seen[..k], n, last) else Count(seen[..k], last)
  }

  function Insert(seen: seq<string>, n: string): seq<string> {
    if n in seen then seen else seen + [n]
  }

  function InsertAll(seen: seq<string>, names: seq<string>): seq<string>
    decreases |names|
  {
    if names == [] then seen else InsertAll(Insert(seen, names[0]), names[1..])
  }

  /** The names of cluster `c` in the order in which the script first meets them. */
  function Order(groups: seq<string>, reg: map<string, seq<string>>, c: seq<string>, seen: seq<string>): seq<string>
    decreases |groups|
  {
    if groups == [] then seen
    else Order(groups[1..], reg, c, if groups[0] in c && groups[0] in reg then InsertAll(seen,
        reg[groups[0]]) else seen)
  }

  ghost predicate TableInv(t: Table, names: seq<string>, seen: seq<string>, last: seq<string>) {
    && names <= t.names
    && (forall n :: n in t.names <==> n in t.index)
    && (forall n | n in t.index :: n in names || n in seen)
    && (forall n | n in seen :: n in t.index && t.index[n] == if n in names then Rank(seen, n, last) else ABSENT)
    && (forall n | n in names && n !in seen :: n in t.index && t.index[n] == UNASSIGNED)
  }

  /** The state of one cluster after the names `seen`. */
  ghost predicate ClusterInv(st: State, reg: map<string, seq<string>>, c: seq<string>, seen: seq<string>) {
    && c != [] && Members(c) <= st.defs.Keys * st.next.Keys * reg.Keys
    && Last(c) in Members(c)
    && st.next[Last(c)] == Count(seen, reg[Last(c)])
    && forall g | g in Members(c) :: TableInv(st.defs[g], reg[g], seen, reg[Last(c)])
  }

  lemma RankOfNew(seen: seq<string>, n: string, last: seq<string>)
    requires n !in seen
    ensures Rank(seen + [n], n, last) == Count(seen, last)
    ensures Count(seen + [n], last) == Count(seen, last) + if n in last then 1 else 0
    ensures forall m | m in seen :: Rank(seen + [n], m, last) == Rank(seen, m, last)
  {
    assert (seen + [n])[..|seen|] == seen;
  }

  lemma VisitKeepsTableInv(t: Table, names: seq<string>, seen: seq<string>, last: seq<string>, n: string)
    requires TableInv(t, names, seen, last)
    ensures TableInv(Visit(t, n, Count(seen, last)), names, Insert(seen, n), last)
    ensures Registers(t, n) <==> n in names && n !in seen
  {
    if n !in seen {
      RankOfNew(seen, n, last);
    }
  }

  /** The next name of the cluster keeps the invariant ... */
  lemma OwnNameKeepsInv(st: State, clusters: seq<seq<string>>, reg: map<string, seq<string>>, c: seq<string>,
                        seen: seq<string>, g: string, n: string)
    requires ClusterInv(st, reg, c, seen) && ClusterOf(clusters, g) == c && Resolves(st, clusters, g)
    ensures FillName(st, clusters, g, n).Ok?
    ensures ClusterInv(FillName(st, clusters, g, n).state, reg, c, Insert(seen, n))
  {
    hide TableInv, Rank, Count, Visit, Registers;
    var last := reg[Last(c)];
    var st' := FillName(st, clusters, g, n).state;
    forall h | h in Members(c)
      ensures TableInv(st'.defs[h], reg[h], Insert(seen, n), last)
      ensures Registers(st.defs[h], n) <==> n in reg[h] && n !in seen
    {
      VisitKeepsTableInv(st.defs[h], reg[h], seen, last, n);
    }
    if n !in seen {
      RankOfNew(seen, n, last);
    }
  }

  /** ... and a name of another cluster does not touch it. */
  lemma OtherNameKeepsInv(st: State, clusters: seq<seq<string>>, reg: map<string, seq<string>>, c: seq<string>,
                          seen: seq<string>, g: string, n: string)
    requires ClusterInv(st, reg, c, seen) && Members(ClusterOf(clusters, g)) !! Members(c) && Resolves(st, clusters, g)
    ensures FillName(st, clusters, g, n).Ok?
    ensures ClusterInv(FillName(st, clusters, g, n).state, reg, c, seen)
  {
  }

  lemma {:induction false} NamesKeepInv(st: State, clusters: seq<seq<string>>, reg: map<string, seq<string>>,
                                        c: seq<string>, seen: seq<string>, g: string, names: seq<string>)
    requires ClusterInv(st, reg, c, seen) && Resolves(st, clusters, g)
    requires ClusterOf(clusters, g) == c || Members(ClusterOf(clusters, g)) !! Members(c)
    ensures FillNames(st, clusters, g, names).Ok?
    ensures ClusterInv(FillNames(st, clusters, g, names).state, reg, c,
                       if ClusterOf(clusters, g) == c then InsertAll(seen, names) else seen)
    decreases |names|
  {
    if names != [] {
      FillNameKeeps(st, clusters, g, names[0]);
      var st' := FillName(st, clusters, g, names[0]).state;
      if ClusterOf(clusters, g) == c {
        OwnNameKeepsInv(st, clusters, reg, c, seen, g, names[0]);
        NamesKeepInv(st', clusters, reg, c, Insert(seen, names[0]), g, names[1..]);
      } else {
        OtherNameKeepsInv(st, clusters, reg, c, seen, g, names[0]);
        NamesKeepInv(st', clusters, reg, c, seen, g, names[1..]);
      }
    }
  }

  lemma {:induction false} InsertAllMembers(seen: seq<string>, names: seq<string>)
    ensures forall n :: n in InsertAll(seen, names) <==> n in seen || n in names
    ensures NoDuplicates(seen) ==> NoDuplicates(InsertAll(seen, names))
    decreases |names|
  {
    if names != [] {
      InsertAllMembers(Insert(seen, names[0]), names[1..]);
      assert forall n :: n in names <==> n == names[0] || n in names[1..];
    }
  }

  /** The names that other groups have added to a table are no news. */
  lemma {:induction false} InsertAllAgain(seen: seq<string>, names: seq<string>, extras: seq<string>)
    requires forall n | n in extras :: n in seen || n in names
    ensures InsertAll(seen, names + extras) == InsertAll(seen, names)
    decreases |names| + |extras|
  {
    if names != [] {
      assert (names + extras)[1..] == names[1..] + extras;
      assert forall n | n in extras :: n in seen || n == names[0] || n in names[1..];
      InsertAllAgain(Insert(seen, names[0]), names[1..], extras);
    } else if extras != [] {
      assert [] + extras == extras;
      InsertAllAgain(seen, [], extras[1..]);
      assert [] + extras[1..] == extras[1..];
    } else {
      assert names + extras == names;
    }
  }

  ghost predicate NoDuplicates(s: seq<string>) {
    forall i, j | 0 <= i < j < |s| :: s[i] != s[j]
  }

  /** No group is listed in two clusters. */
  ghost predicate Partitioned(clusters: seq<seq<string>>) {
    forall g, h | h in ClusterOf(clusters, g) :: ClusterOf(clusters, h) == ClusterOf(clusters, g)
  }

  lemma ClustersMeetOrMatch(clusters: seq<seq<string>>, g: string, h: string)
    requires Partitioned(clusters)
    ensures ClusterOf(clusters, g) == ClusterOf(clusters, h)
         || Members(ClusterOf(clusters, g)) !! Members(ClusterOf(clusters, h))
  {
    var a, b := ClusterOf(clusters, g), ClusterOf(clusters, h);
    if x :| x in Members(a) && x in Members(b) {
      assert ClusterOf(clusters, x) == a && ClusterOf(clusters, x) == b;
    }
  }

  lemma {:induction false} GroupsKeepInv(st: State, clusters: seq<seq<string>>, reg: map<string, seq<string>>,
                                         g0: string, seen: seq<string>, groups: seq<string>)
    requires Partitioned(clusters) && ClusterInv(st, reg, ClusterOf(clusters, g0), seen)
    requires forall g | g in groups :: g in st.defs && Resolves(st, clusters, g)
    ensures FillGroups(st, clusters, groups).Ok?
    ensures ClusterInv(FillGroups(st, clusters, groups).state, reg, ClusterOf(clusters, g0),
                       Order(groups, reg, ClusterOf(clusters, g0), seen))
    decreases |groups|
  {
    var c := ClusterOf(clusters, g0);
    if groups != [] {
      var g := groups[0];
      var names := st.defs[g].names;
      var seen' := if g in c && g in reg then InsertAll(seen, reg[g]) else seen;
      FillNamesKeeps(st, clusters, g, names);
      GroupKeepsInv(st, clusters, reg, g0, seen, g);
      hide ClusterInv, Partitioned, ClusterOf, FillNames, InsertAll;
      GroupsKeepInv(FillNames(st, clusters, g, names).state, clusters, reg, g0, seen', groups[1..]);
    }
  }

  lemma GroupKeepsInv(st: State, clusters: seq<seq<string>>, reg: map<string, seq<string>>, g0: string,
                      seen: seq<string>, g: string)
    requires Partitioned(clusters) && ClusterInv(st, reg, ClusterOf(clusters, g0), seen)
    requires g in st.defs && Resolves(st, clusters, g)
    ensures FillNames(st, clusters, g, st.defs[g].names).Ok?
    ensures var st' := FillNames(st, clusters, g, st.defs[g].names).state;
            && (forall h :: Resolves(st', clusters, h) == Resolves(st, clusters, h))
            && ClusterInv(st', reg, ClusterOf(clusters, g0),
                          if g in ClusterOf(clusters, g0) && g in reg then InsertAll(seen, reg[g]) else seen)
  {
    var c, names := ClusterOf(clusters, g0), st.defs[g].names;
    ClustersMeetOrMatch(clusters, g, g0);
    FillNamesKeeps(st, clusters, g, names);
    NamesKeepInv(st, clusters, reg, c, seen, g, names);
    if ClusterOf(clusters, g) == c {
      assert g in Members(c);
      assert TableInv(st.defs[g], reg[g], seen, reg[Last(c)]);
      assert names == reg[g] + names[|reg[g]|..];
      InsertAllAgain(seen, reg[g], names[|reg[g]|..]);
    } else {
      assert g in Members(ClusterOf(clusters, g));
    }
  }

  // ---------------------------------------------------------------- the result

  /** The dictionaries that the script starts from: every registered driver with -1. */
  function Registered(reg: map<string, seq<string>>): map<string, Table> {
    map g | g in reg :: Table(reg[g], map n | n in reg[g] :: UNASSIGNED)
  }

  lemma {:induction false} OrderMembers(groups: seq<string>, reg: map<string, seq<string>>, c: seq<string>,
                                        seen: seq<string>)
    ensures forall n | n in seen :: n in Order(groups, reg, c, seen)
    ensures forall g, n | g in groups && g in c && g in reg && n in reg[g] :: n in Order(groups, reg, c, seen)
    ensures NoDuplicates(seen) ==> NoDuplicates(Order(groups, reg, c, seen))
    decreases |groups|
  {
    if groups != [] {
      var seen' := if groups[0] in c && groups[0] in reg then InsertAll(seen, reg[groups[0]]) else seen;
      if groups[0] in c && groups[0] in reg {
        InsertAllMembers(seen, reg[groups[0]]);
      }
      OrderMembers(groups[1..], reg, c, seen');
      assert forall g | g in groups :: g == groups[0] || g in groups[1..];
    }
  }

  function Generated(reg: map<string, seq<string>>, groups: seq<string>, clusters: seq<seq<string>>,
                     symbols: seq<string>): Result {
    FillGroups(State(Registered(reg), ZeroIndices(symbols)), clusters, groups)
  }

  /** Every group of the registrations is met once or more, none is empty, and the script ends well. */
  ghost predicate Generates(reg: map<string, seq<string>>, groups: seq<string>, clusters: seq<seq<string>>,
                            symbols: seq<string>) {
    && Partitioned(clusters)
    && (forall g :: g in groups <==> g in reg) && (forall g | g in reg :: reg[g] != [])
    && Generated(reg, groups, clusters, symbols).Ok?
  }

  /** The names that the cluster of `g0` registers, in the order in which the script meets them. */
  function MetNames(reg: map<string, seq<string>>, groups: seq<string>, clusters: seq<seq<string>>,
                    g0: string): seq<string> {
    Order(groups, reg, ClusterOf(clusters, g0), [])
  }

  lemma ClusterIsFilled(reg: map<string, seq<string>>, groups: seq<string>, clusters: seq<seq<string>>,
                        symbols: seq<string>, g0: string)
    requires Generates(reg, groups, clusters, symbols) && g0 in groups
    ensures NoDuplicates(MetNames(reg, groups, clusters, g0))
    ensures ClusterInv(Generated(reg, groups, clusters, symbols).state, reg, ClusterOf(clusters, g0),
                       MetNames(reg, groups, clusters, g0))
    ensures forall g, n | g in ClusterOf(clusters, g0) && g in reg && n in reg[g] ::
              n in MetNames(reg, groups, clusters, g0)
  {
    StartResolves(reg, groups, clusters, symbols, g0);
    OrderMembers(groups, reg, ClusterOf(clusters, g0), []);
    hide ClusterInv, FillGroups, Order, Resolves, ClusterOf;
    GroupsKeepInv(State(Registered(reg), ZeroIndices(symbols)), clusters, reg, g0, [], groups);
  }

  lemma StartResolves(reg: map<string, seq<string>>, groups: seq<string>, clusters: seq<seq<string>>,
                      symbols: seq<string>, g0: string)
    requires Generates(reg, groups, clusters, symbols) && g0 in groups
    ensures var start := State(Registered(reg), ZeroIndices(symbols));
            && (forall g | g in groups :: g in start.defs && Resolves(start, clusters, g))
            && ClusterInv(start, reg, ClusterOf(clusters, g0), [])
  {
    var start := State(Registered(reg), ZeroIndices(symbols));
    assert NamesGiven(start);
    assert forall g | g in groups :: g in start.defs;
    FillsIff(start, clusters, groups);
    StartInv(reg, clusters, symbols, g0);
  }

  lemma StartInv(reg: map<string, seq<string>>, clusters: seq<seq<string>>, symbols: seq<string>, g: string)
    ensures var start := State(Registered(reg), ZeroIndices(symbols));
            Resolves(start, clusters, g) ==> ClusterInv(start, reg, ClusterOf(clusters, g), [])
  {
    var start, c := State(Registered(reg), ZeroIndices(symbols)), ClusterOf(clusters, g);
    if Resolves(start, clusters, g) {
      assert Last(c) in Members(c) && start.defs.Keys == reg.Keys;
      forall h | h in Members(c)
        ensures TableInv(start.defs[h], reg[h], [], reg[Last(c)])
      {
      }
    }
  }

  /** The index of a driver in any group of a cluster that registers it: the number of drivers of the cluster's last
      listed group that were met before it, whatever the group.  A group that does not register a driver of its
      cluster marks it as absent. */
  lemma IndexIsRank(reg: map<string, seq<string>>, groups: seq<string>, clusters: seq<seq<string>>,
                    symbols: seq<string>, g0: string, g: string, n: string)
    requires Generates(reg, groups, clusters, symbols) && g0 in groups && g in ClusterOf(clusters, g0)
    ensures g in reg && Last(ClusterOf(clusters, g0)) in reg
              && g in Generated(reg, groups, clusters, symbols).state.defs
    ensures var index := Generated(reg, groups, clusters, symbols).state.defs[g].index;
            var seen := MetNames(reg, groups, clusters, g0);
            && (n in index <==> n in seen)
            && (n in reg[g] ==> n in seen && index[n] == Rank(seen, n, reg[Last(ClusterOf(clusters, g0))]))
            && (n in seen && n !in reg[g] ==> index[n] == ABSENT)
  {
    ClusterIsFilled(reg, groups, clusters, symbols, g0);
    hide *;
    FilledTable(Generated(reg, groups, clusters, symbols).state, reg, ClusterOf(clusters, g0),
                MetNames(reg, groups, clusters, g0), g, n);
  }

  lemma FilledTable(st: State, reg: map<string, seq<string>>, c: seq<string>, seen: seq<string>, g: string, n: string)
    requires ClusterInv(st, reg, c, seen) && g in c
    requires forall h, m | h in c && h in reg && m in reg[h] :: m in seen
    ensures g in reg && Last(c) in reg && g in st.defs
    ensures n in st.defs[g].index <==> n in seen
    ensures n in reg[g] ==> n in seen && st.defs[g].index[n] == Rank(seen, n, reg[Last(c)])
    ensures n in seen && n !in reg[g] ==> st.defs[g].index[n] == ABSENT
  {
    assert g in Members(c);
    assert TableInv(st.defs[g], reg[g], seen, reg[Last(c)]);
  }

  lemma {:induction false} RankAt(seen: seq<string>, i: nat, last: seq<string>)
    requires NoDuplicates(seen) && i < |seen|
    ensures Rank(seen, seen[i], last) == Count(seen[..i], last)
    decreases |seen|
  {
    var k := |seen| - 1;
    if i < k {
      assert seen[..k][i] == seen[i];
      RankAt(seen[..k], i, last);
      assert seen[..k][..i] == seen[..i];
    } else {
      assert seen[i] !in seen[..k];
    }
  }

  lemma {:induction false} CountBetween(seen: seq<string>, i: nat, j: nat, last: seq<string>)
    requires i <= j <= |seen|
    ensures Count(seen[..i], last) <= Count(seen[..j], last) <= Count(seen[..i], last) + (j - i)
    ensures Count(seen[..i], last) == Count(seen[..j], last) <==> forall k | i <= k < j :: seen[k] !in last
    decreases j - i
  {
    if i < j {
      CountBetween(seen, i, j - 1, last);
      assert seen[..j][..j - 1] == seen[..j - 1] && seen[..j][j - 1] == seen[j - 1];
    }
  }

  /** Two drivers share a rank exactly when the last listed group registers none of those met from the first of them up
      to the second. */
  lemma SameRankIff(seen: seq<string>, i: nat, j: nat, last: seq<string>)
    requires NoDuplicates(seen) && i <= j < |seen|
    ensures Rank(seen, seen[i], last) == Rank(seen, seen[j], last) <==> forall k | i <= k < j :: seen[k] !in last
  {
    RankAt(seen, i, last);
    RankAt(seen, j, last);
    CountBetween(seen, i, j, last);
  }

  /** From any driver of `own` up to the next one, the script meets one that the last listed group registers. */
  ghost predicate Separated(seen: seq<string>, own: seq<string>, last: seq<string>) {
    forall i, j | 0 <= i < j < |seen| && seen[i] in own && seen[j] in own :: exists k :: i <= k < j && seen[k] in last
  }

  /** No index of a dictionary is given out twice. */
  ghost predicate Injective(t: Table) {
    forall n, m | n in t.index && m in t.index && t.index[n] == t.index[m] && t.index[n] >= 0 :: n == m
  }

  /** A dictionary as `IndexIsRank` describes it. */
  ghost predicate IsRanked(t: Table, own: seq<string>, seen: seq<string>, last: seq<string>) {
    && (forall n :: n in t.index <==> n in seen)
    && (forall n | n in own :: n in seen && t.index[n] == Rank(seen, n, last))
    && (forall n | n in seen && n !in own :: t.index[n] == ABSENT)
  }

  lemma RanksDifferIff(t: Table, own: seq<string>, seen: seq<string>, last: seq<string>)
    requires NoDuplicates(seen) && IsRanked(t, own, seen, last)
    ensures Injective(t) <==> Separated(seen, own, last)
  {
    if Separated(seen, own, last) {
      forall i, j | 0 <= i < j < |seen| && seen[i] in own && seen[j] in own
        ensures Rank(seen, seen[i], last) != Rank(seen, seen[j], last)
      {
        SameRankIff(seen, i, j, last);
      }
    }
    if Injective(t) {
      forall i, j | 0 <= i < j < |seen| && seen[i] in own && seen[j] in own
        ensures exists k :: i <= k < j && seen[k] in last
      {
        SameRankIff(seen, i, j, last);
      }
    }
  }

  lemma ClusterIsRanked(reg: map<string, seq<string>>, groups: seq<string>, clusters: seq<seq<string>>,
                        symbols: seq<string>, g0: string, h: string)
    requires Generates(reg, groups, clusters, symbols) && g0 in groups && h in ClusterOf(clusters, g0)
    ensures h in reg && Last(ClusterOf(clusters, g0)) in reg
    ensures h in Generated(reg, groups, clusters, symbols).state.defs
    ensures IsRanked(Generated(reg, groups, clusters, symbols).state.defs[h], reg[h],
                     MetNames(reg, groups, clusters, g0), reg[Last(ClusterOf(clusters, g0))])
  {
    IndexIsRank(reg, groups, clusters, symbols, g0, h, "");
    hide ClusterOf, Generated, Generates, MetNames, Rank, Last;
    forall n {
      IndexIsRank(reg, groups, clusters, symbols, g0, h, n);
    }
  }

  /** A group's dictionary gives no index out twice exactly when its registered drivers are separated, in the order of
      meeting, by drivers of the cluster's last listed group. */
  lemma InjectiveIff(reg: map<string, seq<string>>, groups: seq<string>, clusters: seq<seq<string>>,
                     symbols: seq<string>, g0: string, h: string)
    requires Generates(reg, groups, clusters, symbols) && g0 in groups && h in ClusterOf(clusters, g0)
    ensures h in reg && Last(ClusterOf(clusters, g0)) in reg
    ensures h in Generated(reg, groups, clusters, symbols).state.defs
    ensures Injective(Generated(reg, groups, clusters, symbols).state.defs[h]) <==>
              Separated(MetNames(reg, groups, clusters, g0), reg[h], reg[Last(ClusterOf(clusters, g0))])
  {
    ClusterIsRanked(reg, groups, clusters, symbols, g0, h);
    ClusterIsFilled(reg, groups, clusters, symbols, g0);
    hide *;
    RanksDifferIff(Generated(reg, groups, clusters, symbols).state.defs[h], reg[h],
                   MetNames(reg, groups, clusters, g0), reg[Last(ClusterOf(clusters, g0))]);
  }

  /** Only drivers that some group of the cluster registers are met. */
  lemma {:induction false} OrderSources(groups: seq<string>, reg: map<string, seq<string>>, c: seq<string>,
                                        seen: seq<string>, n: string)
    requires n in Order(groups, reg, c, seen)
    ensures n in seen || exists g :: g in groups && g in c && g in reg && n in reg[g]
    decreases |groups|
  {
    if groups != [] {
      var seen' := if groups[0] in c && groups[0] in reg then InsertAll(seen, reg[groups[0]]) else seen;
      OrderSources(groups[1..], reg, c, seen', n);
      if groups[0] in c && groups[0] in reg {
        InsertAllMembers(seen, reg[groups[0]]);
      }
    }
  }

  /** Group `g` of the cluster registers driver `n`. */
  ghost predicate RegistersIn(reg: map<string, seq<string>>, c: seq<string>, g: string, n: string) {
    g in c && g in reg && n in reg[g]
  }

  /** No two drivers of a cluster, in whatever groups, get the same index exactly when all of them, but perhaps the one
      met last, are registered in the cluster's last listed group. */
  lemma IndicesDifferIff(reg: map<string, seq<string>>, groups: seq<string>, clusters: seq<seq<string>>,
                         symbols: seq<string>, g0: string)
    requires Generates(reg, groups, clusters, symbols) && g0 in groups
    ensures var st, c := Generated(reg, groups, clusters, symbols).state, ClusterOf(clusters, g0);
            var seen := MetNames(reg, groups, clusters, g0);
            && (forall g, n | RegistersIn(reg, c, g, n) :: g in st.defs && n in st.defs[g].index)
            && Last(c) in reg
            && (AllIndicesDiffer(st, reg, c) <==> forall i | 0 <= i < |seen| - 1 :: seen[i] in reg[Last(c)])
  {
    var st, c := Generated(reg, groups, clusters, symbols).state, ClusterOf(clusters, g0);
    var seen := MetNames(reg, groups, clusters, g0);
    ClusterIsFilled(reg, groups, clusters, symbols, g0);
    forall h | h in c
      ensures h in reg && Last(c) in reg && h in st.defs && IsRanked(st.defs[h], reg[h], seen, reg[Last(c)])
    {
      ClusterIsRanked(reg, groups, clusters, symbols, g0, h);
    }
    forall n | n in seen
      ensures exists g :: RegistersIn(reg, c, g, n)
    {
      OrderSources(groups, reg, c, [], n);
      var g :| g in groups && g in c && g in reg && n in reg[g];
      assert RegistersIn(reg, c, g, n);
    }
    hide *;
    ClusterRanksDifferIff(st, reg, c, seen, reg[Last(c)]);
  }

  lemma RanksOfTwo(seen: seq<string>, last: seq<string>, n: string, m: string)
    requires NoDuplicates(seen) && (forall i | 0 <= i < |seen| - 1 :: seen[i] in last)
    requires n in seen && m in seen && n != m
    ensures Rank(seen, n, last) != Rank(seen, m, last)
  {
    var i :| 0 <= i < |seen| && seen[i] == n;
    var j :| 0 <= j < |seen| && seen[j] == m;
    if i < j {
      SameRankIff(seen, i, j, last);
    } else {
      SameRankIff(seen, j, i, last);
    }
  }

  lemma RanksOfNeighbours(seen: seq<string>, last: seq<string>, i: nat)
    requires NoDuplicates(seen) && i < |seen| - 1 && seen[i] !in last
    ensures seen[i] in seen && seen[i + 1] in seen && seen[i] != seen[i + 1]
    ensures Rank(seen, seen[i], last) == Rank(seen, seen[i + 1], last)
  {
    SameRankIff(seen, i, i + 1, last);
  }

  ghost predicate AllIndicesDiffer(st: State, reg: map<string, seq<string>>, c: seq<string>)
    requires forall g, n | RegistersIn(reg, c, g, n) :: g in st.defs && n in st.defs[g].index
  {
    forall g, n, h, m | RegistersIn(reg, c, g, n) && RegistersIn(reg, c, h, m) && n != m ::
      st.defs[g].index[n] != st.defs[h].index[m]
  }

  lemma RankedIndex(st: State, reg: map<string, seq<string>>, c: seq<string>, seen: seq<string>, last: seq<string>,
                    g: string, n: string)
    requires forall h | h in c :: h in reg && h in st.defs && IsRanked(st.defs[h], reg[h], seen, last)
    requires RegistersIn(reg, c, g, n)
    ensures g in st.defs && n in st.defs[g].index && n in seen && st.defs[g].index[n] == Rank(seen, n, last)
  {}

  lemma ClusterRanksDifferIff(st: State, reg: map<string, seq<string>>, c: seq<string>, seen: seq<string>,
                              last: seq<string>)
    requires NoDuplicates(seen)
    requires forall h | h in c :: h in reg && h in st.defs && IsRanked(st.defs[h], reg[h], seen, last)
    requires forall n | n in seen :: exists g :: RegistersIn(reg, c, g, n)
    ensures forall g, n | RegistersIn(reg, c, g, n) :: g in st.defs && n in st.defs[g].index
    ensures AllIndicesDiffer(st, reg, c) <==> forall i | 0 <= i < |seen| - 1 :: seen[i] in last
  {
    hide IsRanked, Rank, NoDuplicates, RegistersIn;
    forall g, n | RegistersIn(reg, c, g, n)
      ensures g in st.defs && n in st.defs[g].index && n in seen && st.defs[g].index[n] == Rank(seen, n, last)
    {
      RankedIndex(st, reg, c, seen, last, g, n);
    }
    if i :| 0 <= i < |seen| - 1 && seen[i] !in last {
      RanksOfNeighbours(seen, last, i);
      var g :| RegistersIn(reg, c, g, seen[i]);
      var h :| RegistersIn(reg, c, h, seen[i + 1]);
      assert st.defs[g].index[seen[i]] == st.defs[h].index[seen[i + 1]];
    } else {
      forall n, m | n in seen && m in seen && n != m
        ensures Rank(seen, n, last) != Rank(seen, m, last)
      {
        RanksOfTwo(seen, last, n, m);
      }
    }
  }

  // Two drivers of one group, and a third in the group that is listed last.
  const COLLIDING: map<string, seq<string>> := map["super" := ["x", "y"], "file" := ["z"]]
  const COLLIDING_GROUPS: seq<string> := ["super", "file"]

  /** The script ends well on them, and gives index 0 twice in one dictionary. */
  lemma TwoDriversCollide()
    ensures Generates(COLLIDING, COLLIDING_GROUPS, [COLLIDING_GROUPS], COLLIDING_GROUPS)
    ensures var st := Generated(COLLIDING, COLLIDING_GROUPS, [COLLIDING_GROUPS], COLLIDING_GROUPS).state;
            && "super" in st.defs && "x" in st.defs["super"].index && "y" in st.defs["super"].index
            && st.defs["super"].index["x"] == st.defs["super"].index["y"] == 0
            && "z" in st.defs["super"].index && st.defs["super"].index["z"] == -100
  {
    CollidingGenerates();
    CollidingNames();
    IndexIsRank(COLLIDING, COLLIDING_GROUPS, [COLLIDING_GROUPS], COLLIDING_GROUPS, "super", "super", "x");
    IndexIsRank(COLLIDING, COLLIDING_GROUPS, [COLLIDING_GROUPS], COLLIDING_GROUPS, "super", "super", "y");
    IndexIsRank(COLLIDING, COLLIDING_GROUPS, [COLLIDING_GROUPS], COLLIDING_GROUPS, "super", "super", "z");
  }

  lemma CollidingClusters(g: string)
    ensures ClusterOf([COLLIDING_GROUPS], g) == if g in COLLIDING_GROUPS then COLLIDING_GROUPS else [g]
  {
    assert [COLLIDING_GROUPS][1..] == [];
  }

  lemma CollidingGenerates()
    ensures Generates(COLLIDING, COLLIDING_GROUPS, [COLLIDING_GROUPS], COLLIDING_GROUPS)
  {
    forall g {
      CollidingClusters(g);
    }
    hide ClusterOf, FillGroups, Generated;
    CollidingEnds();
  }

  lemma CollidingEnds()
    ensures Generated(COLLIDING, COLLIDING_GROUPS, [COLLIDING_GROUPS], COLLIDING_GROUPS).Ok?
  {
    hide ClusterOf, FillGroups;
    CollidingClusters("super");
    CollidingClusters("file");
    FillsIff(State(Registered(COLLIDING), ZeroIndices(COLLIDING_GROUPS)), [COLLIDING_GROUPS], COLLIDING_GROUPS);
  }

  lemma CollidingNames()
    ensures ClusterOf([COLLIDING_GROUPS], "super") == COLLIDING_GROUPS && Last(COLLIDING_GROUPS) == "file"
    ensures var seen := MetNames(COLLIDING, COLLIDING_GROUPS, [COLLIDING_GROUPS], "super");
            && seen == ["x", "y", "z"]
            && Rank(seen, "x", COLLIDING["file"]) == Rank(seen, "y", COLLIDING["file"]) == 0
  {
    CollidingClusters("super");
    CollidingOrder();
    CollidingRanks();
  }

  lemma CollidingOrder()
    ensures Order(COLLIDING_GROUPS, COLLIDING, COLLIDING_GROUPS, []) == ["x", "y", "z"]
  {
    assert ["x", "y"][1..] == ["y"] && COLLIDING_GROUPS[1..] == ["file"];
    assert InsertAll([], ["x", "y"]) == ["x", "y"];
    assert InsertAll(["x", "y"], ["z"]) == ["x", "y", "z"];
  }

  lemma CollidingRanks()
    ensures Rank(["x", "y", "z"], "x", ["z"]) == Rank(["x", "y", "z"], "y", ["z"]) == 0
  {
    var seen := ["x", "y", "z"];
    RankAt(seen, 0, ["z"]);
    RankAt(seen, 1, ["z"]);
    assert seen[..1] == ["x"] && ["x"][..0] == [];
  }
}
