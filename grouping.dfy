/** Seed-centric duplicate grouping (`group_duplicates`). Entries without a
    hash are dropped; every entry not yet used opens a group as its seed, and
    every later unused entry within the threshold of the SEED joins it. Only
    groups with at least two members are reported. Distances between two
    non-seed members play no part, so a group need not be a clique. */
module Grouping {
  import opened Common
  import opened Paths
  import opened Hamming

  /** What the grouper reads of an entry: `(relpath, hash-or-None, ...)`. */
  datatype Entry = Entry(path: RelPath, hash: Option<string>)

  /** An element of `indexed`: position in the input, path and hash of an entry that has a hash. */
  datatype Indexed = Indexed(index: nat, path: RelPath, hash: string)

  /** `indexed = [(i, e[0], e[1]) for i, e in enumerate(entries) if e[1] is not None]`. */
  function Present(entries: seq<Entry>): (r: seq<Indexed>)
    ensures forall k :: 0 <= k < |r| ==>
      r[k].index < |entries| && entries[r[k].index] == Entry(r[k].path, Some(r[k].hash))
    ensures forall k1, k2 :: 0 <= k1 < k2 < |r| ==> r[k1].index < r[k2].index
    decreases |entries|
  {
    if entries == [] then []
    else
      var rest := Present(entries[..|entries| - 1]);
      var e := entries[|entries| - 1];
      if e.hash.Some? then rest + [Indexed(|entries| - 1, e.path, e.hash.value)] else rest
  }

  /** Every entry that has a hash takes part in the grouping. */
  lemma {:induction false} PresentComplete(entries: seq<Entry>, i: nat)
    requires i < |entries| && entries[i].hash.Some?
    ensures exists k :: 0 <= k < |Present(entries)| && Present(entries)[k].index == i
    decreases |entries|
  {
    var rest := Present(entries[..|entries| - 1]);
    if i < |entries| - 1 {
      PresentComplete(entries[..|entries| - 1], i);
      var k :| 0 <= k < |rest| && rest[k].index == i;
      assert Present(entries)[k] == rest[k];
    } else {
      assert Present(entries)[|rest|].index == i;
    }
  }

  /** A distance between two hash strings; None stands for the ValueError
      raised when one of them is not a hexadecimal numeral. The grouping is
      stated for any such distance and used with `HammingDistanceHex`. */
  type Metric = (string, string) -> Option<nat>

  /** `dist(a, b) <= threshold` (false when the distance is undefined). */
  predicate Close(d: Metric, a: string, b: string, t: int)
  {
    var r := d(a, b);
    r.Some? && r.value <= t
  }

  /** The distance is defined exactly on pairs of hexadecimal numerals, as
      `HammingDistanceHex` is. */
  ghost predicate DefinedOnHex(d: Metric)
  {
    forall a, b :: d(a, b).Some? <==> Parses(a) && Parses(b)
  }

  predicate Parses(h: string)
  {
    ParseHex(h).Some?
  }

  lemma HammingDefinedOnHex()
    ensures DefinedOnHex(HammingDistanceHex)
  {
  }

  /** Position `j` of `indexed` belongs to one of the groups. */
  ghost predicate InSome(idx: seq<seq<nat>>, j: nat)
  {
    exists g :: 0 <= g < |idx| && j in idx[g]
  }

  // The groups are described by positions in `indexed`: idx[g][m] is the
  // position of the m-th member of group g, and idx[g][0] is its seed.

  /** Every group has at least two members, listed in input order. */
  ghost predicate WellShaped(n: nat, idx: seq<seq<nat>>)
  {
    forall g :: 0 <= g < |idx| ==>
      && |idx[g]| >= 2
      && (forall m :: 0 <= m < |idx[g]| ==> idx[g][m] < n)
      && (forall m1, m2 :: 0 <= m1 < m2 < |idx[g]| ==> idx[g][m1] < idx[g][m2])
  }

  /** Groups are reported in the order of their seeds. */
  ghost predicate SeedsAscending(idx: seq<seq<nat>>)
  {
    forall g1, g2 :: 0 <= g1 < g2 < |idx| && |idx[g1]| > 0 && |idx[g2]| > 0 ==> idx[g1][0] < idx[g2][0]
  }

  /** No position is in two groups. */
  ghost predicate Disjoint(idx: seq<seq<nat>>)
  {
    forall g1, g2, j :: 0 <= g1 < g2 < |idx| && j in idx[g1] ==> j !in idx[g2]
  }

  /** Every non-seed member is within the threshold of its group's seed. */
  ghost predicate MembersCloseToSeed(P: seq<Indexed>, d: Metric, t: int, idx: seq<seq<nat>>)
    requires WellShaped(|P|, idx)
  {
    forall g, m :: 0 <= g < |idx| && 0 < m < |idx[g]| ==> Close(d, P[idx[g][0]].hash, P[idx[g][m]].hash, t)
  }

  /** When a seed opens its group, every later position within the threshold
      of it that no earlier group has taken joins the group. */
  ghost predicate GreedyComplete(P: seq<Indexed>, d: Metric, t: int, idx: seq<seq<nat>>)
    requires WellShaped(|P|, idx)
  {
    forall g, j {:trigger j in idx[g]} ::
      (0 <= g < |idx| && idx[g][0] < j < |P| && Close(d, P[idx[g][0]].hash, P[j].hash, t)
       && (forall g' :: 0 <= g' < g ==> j !in idx[g'])) ==> j in idx[g]
  }

  /** A position below `bound` that ended up in no group opened a group of
      its own that stayed alone: every later position within the threshold of
      it had already been taken by a group with an earlier seed. */
  ghost predicate LoneSeedsComplete(P: seq<Indexed>, d: Metric, t: int, idx: seq<seq<nat>>, bound: nat)
    requires WellShaped(|P|, idx)
  {
    forall k, j {:trigger Close(d, P[k].hash, P[j].hash, t)} :: 0 <= k < j < |P| && k < bound && !InSome(idx, k) && Close(d, P[k].hash, P[j].hash, t) ==>
      exists g :: 0 <= g < |idx| && idx[g][0] < k && j in idx[g]
  }

  /** The groups `idx` are what seed-centric greedy grouping of `P` yields
      once the seeds below `bound` have been processed. */
  ghost predicate GroupsUpTo(P: seq<Indexed>, d: Metric, t: int, idx: seq<seq<nat>>, bound: nat)
  {
    && WellShaped(|P|, idx)
    && SeedsAscending(idx)
    && Disjoint(idx)
    && MembersCloseToSeed(P, d, t, idx)
    && GreedyComplete(P, d, t, idx)
    && LoneSeedsComplete(P, d, t, idx, bound)
    && (forall g :: 0 <= g < |idx| ==> idx[g][0] < bound)
  }

  /** The groups `idx` are the seed-centric greedy grouping of all of `P`. */
  ghost predicate SeedCentricGroups(P: seq<Indexed>, d: Metric, t: int, idx: seq<seq<nat>>)
  {
    GroupsUpTo(P, d, t, idx, |P|)
  }

  /** Every position named by the groups is a position of `indexed`. */
  ghost predicate InRange(n: nat, idx: seq<seq<nat>>)
  {
    forall g, m :: 0 <= g < |idx| && 0 <= m < |idx[g]| ==> idx[g][m] < n
  }

  /** The paths at the positions `gi`. */
  function PathsFor(P: seq<Indexed>, gi: seq<nat>): (r: seq<RelPath>)
    requires forall m :: 0 <= m < |gi| ==> gi[m] < |P|
    ensures |r| == |gi| && forall m :: 0 <= m < |gi| ==> r[m] == P[gi[m]].path
  {
    seq(|gi|, m requires 0 <= m < |gi| => P[gi[m]].path)
  }

  /** The path groups at the position groups `idx`. */
  ghost function GroupPaths(P: seq<Indexed>, idx: seq<seq<nat>>): (r: seq<seq<RelPath>>)
    requires InRange(|P|, idx)
    ensures |r| == |idx| && forall g :: 0 <= g < |idx| ==> r[g] == PathsFor(P, idx[g])
  {
    seq(|idx|, g requires 0 <= g < |idx| => PathsFor(P, idx[g]))
  }

  predicate DistinctPaths(entries: seq<Entry>)
  {
    forall i, j :: 0 <= i < j < |entries| ==> entries[i].path != entries[j].path
  }

  /** Some hash in `indexed` is not a hexadecimal numeral. */
  predicate SomeMalformed(P: seq<Indexed>)
  {
    exists k :: 0 <= k < |P| && !Parses(P[k].hash)
  }

  /** No path occurs at two places of the reported groups. */
  predicate NoPathRepeated(groups: seq<seq<RelPath>>)
  {
    forall g1, m1, g2, m2 ::
      (0 <= g1 < |groups| && 0 <= m1 < |groups[g1]| &&
       0 <= g2 < |groups| && 0 <= m2 < |groups[g2]| && (g1, m1) != (g2, m2)) ==>
      groups[g1][m1] != groups[g2][m2]
  }


  /** `group_duplicates(entries, threshold)`. None stands for the ValueError
      that a malformed hash raises inside the distance computation; the first
      seed is compared with every later entry, so this happens exactly when at
      least two entries have a hash and one of those hashes does not parse. */
  method GroupDuplicates(entries: seq<Entry>, threshold: int)
    returns (r: Option<seq<seq<RelPath>>>, ghost idx: seq<seq<nat>>)
    ensures r.None? <==> |Present(entries)| >= 2 && SomeMalformed(Present(entries))
    ensures r.Some? ==> SeedCentricGroups(Present(entries), HammingDistanceHex, threshold, idx)
    ensures r.Some? ==> InRange(|Present(entries)|, idx) && r.value == GroupPaths(Present(entries), idx)
    ensures r.Some? && DistinctPaths(entries) ==> NoPathRepeated(r.value)
  {
    var P := Present(entries);
    var d: Metric := HammingDistanceHex;
    HammingDefinedOnHex();
    r, idx := GroupIndexed(P, d, threshold);
    ScannedDefined(P, d, threshold);
    if r.Some? {
      ScanIsSeedCentric(P, d, threshold, |P|);
      if DistinctPaths(entries) {
        NoPathTwice(entries, idx, r.value);
      }
    }
  }

  /** The loops of `group_duplicates` over `indexed`, computing what `Scanned` specifies. */
  method GroupIndexed(P: seq<Indexed>, d: Metric, threshold: int)
    returns (r: Option<seq<seq<RelPath>>>, ghost idx: seq<seq<nat>>)
    ensures r.None? <==> Scanned(P, d, threshold, |P|).None?
    ensures r.Some? ==> Scanned(P, d, threshold, |P|).Some? && idx == Scanned(P, d, threshold, |P|).value.idx
    ensures r.Some? ==> InRange(|P|, idx) && r.value == GroupPaths(P, idx)
  {
    var n := |P|;
    var used := new bool[n](_ => false);
    var groups: seq<seq<RelPath>> := [];
    ghost var st := ScanState([], {});
    var i := 0;
    while i < n
      invariant 0 <= i <= n && used.Length == n
      invariant Scanned(P, d, threshold, i) == Some(st) && groups == GroupPaths(P, st.idx)
      invariant forall k :: 0 <= k < n ==> (used[k] <==> k in st.used)
    {
      if !used[i] {
        var ok, group, gi, st' := OpenGroup(P, d, threshold, used, i, st);
        if !ok {
          return None, st.idx;
        }
        if |group| > 1 {
          AppendGroup(P, st.idx, gi);
          groups := groups + [group];
        }
        st := st';
      }
      i := i + 1;
    }
    r, idx := Some(groups), st.idx;
  }

  /** The body of the outer loop of `group_duplicates` for an unused entry:
      it is marked used and opens a group, which is kept when it has a second
      member. `ok` is false when a distance is undefined. */
  method OpenGroup(P: seq<Indexed>, d: Metric, threshold: int, used: array<bool>, i: nat, ghost st: ScanState)
    returns (ok: bool, group: seq<RelPath>, ghost gi: seq<nat>, ghost st': ScanState)
    modifies used
    requires i < |P| && used.Length == |P|
    requires Scanned(P, d, threshold, i) == Some(st)
    requires forall k :: 0 <= k < |P| ==> (used[k] <==> k in st.used)
    requires !used[i]
    ensures !ok ==> Scanned(P, d, threshold, |P|).None?
    ensures ok ==> |gi| >= 1 && (forall m :: 0 <= m < |gi| ==> gi[m] < |P|) && group == PathsFor(P, gi)
    ensures ok ==> Scanned(P, d, threshold, i + 1) == Some(st')
    ensures ok ==> st'.idx == if |gi| >= 2 then st.idx + [gi] else st.idx
    ensures ok ==> forall k :: 0 <= k < |P| ==> (used[k] <==> k in st'.used)
  {
    used[i] := true;
    ok, group, gi := GrowGroup(P, d, threshold, used, i, st.used);
    if !ok {
      ScannedNoneStays(P, d, threshold, i + 1, |P|);
      st' := st;
      return;
    }
    st' := Visited(st, i, gi);
  }

  /** The inner loop of `group_duplicates`: the unused entries after the seed
      at position `i` whose distance to the seed is within the threshold join
      its group and are marked used. `ok` is false when a distance is undefined. */
  method GrowGroup(P: seq<Indexed>, d: Metric, threshold: int, used: array<bool>, i: nat, ghost marked: set<nat>)
    returns (ok: bool, group: seq<RelPath>, ghost gi: seq<nat>)
    modifies used
    requires i < |P| && used.Length == |P|
    requires forall k :: 0 <= k < |P| ==> (used[k] <==> k == i || k in marked)
    ensures ok <==> Grown(P, d, threshold, marked, i, |P|).Some?
    ensures ok ==> Grown(P, d, threshold, marked, i, |P|) == Some(gi) && group == PathsFor(P, gi)
    ensures ok ==> forall k :: 0 <= k < |P| ==> (used[k] <==> k == i || k in marked || k in gi)
  {
    var n := |P|;
    var seed := P[i].hash;
    group := [P[i].path];
    gi := [i];
    var j := i + 1;
    while j < n
      invariant i + 1 <= j <= n
      invariant Grown(P, d, threshold, marked, i, j) == Some(gi) && group == PathsFor(P, gi)
      invariant forall k :: 0 <= k < n ==> (used[k] <==> k == i || k in marked || k in gi)
    {
      if !used[j] {
        var dist := d(seed, P[j].hash);
        if dist.None? {
          GrownNoneStays(P, d, threshold, marked, i, j + 1, n);
          return false, group, gi;
        }
        if dist.value <= threshold {
          group := group + [P[j].path];
          gi := gi + [j];
          used[j] := true;
        }
      }
      j := j + 1;
    }
    ok := true;
  }

  /** The state of the outer loop: the groups kept so far, by positions, and
      the positions marked in `used`. */
  datatype ScanState = ScanState(idx: seq<seq<nat>>, used: set<nat>)

  /** The state after the seed at position `i` has grown the group `gi`:
      the seed and the members are marked, and the group is kept when it has
      a second member. */
  ghost function Visited(st: ScanState, i: nat, gi: seq<nat>): ScanState
  {
    ScanState(if |gi| >= 2 then st.idx + [gi] else st.idx, st.used + {i} + (set k | k in gi))
  }

  /** The outer loop over the seeds below `i`: a marked position is skipped,
      any other opens a group with the later unmarked positions within the
      threshold of it. None once a distance is undefined. */
  ghost function Scanned(P: seq<Indexed>, d: Metric, t: int, i: nat): (r: Option<ScanState>)
    requires i <= |P|
    ensures r.Some? ==> InRange(|P|, r.value.idx)
    decreases i
  {
    if i == 0 then Some(ScanState([], {}))
    else
      match Scanned(P, d, t, i - 1)
      case None => None
      case Some(st) =>
        var s := i - 1;
        if s in st.used then Some(st)
        else
          match Grown(P, d, t, st.used, s, |P|)
          case None => None
          case Some(g) => Some(Visited(st, s, g))
  }

  /** The inner loop for the seed at position `i`, over the positions below
      `j`: the seed, then in input order every later position not marked
      whose distance to the seed is within the threshold. None once a
      distance is undefined. */
  ghost function Grown(P: seq<Indexed>, d: Metric, t: int, marked: set<nat>, i: nat, j: nat): (r: Option<seq<nat>>)
    requires i < j <= |P|
    ensures r.Some? ==> |r.value| >= 1 && r.value[0] == i
    ensures r.Some? ==> forall m :: 0 <= m < |r.value| ==> i <= r.value[m] < j
    decreases j
  {
    if j == i + 1 then Some([i])
    else
      var k := j - 1;
      match Grown(P, d, t, marked, i, k)
      case None => None
      case Some(g) =>
        if k in marked then Some(g)
        else
          var dist := d(P[i].hash, P[k].hash);
          if dist.None? then None
          else if dist.value <= t then Some(g + [k])
          else Some(g)
  }

  /** A group is increasing, every member after the seed is unmarked and
      within the threshold of the seed, and every unmarked position within the
      threshold is a member. */
  lemma {:induction false} GrownSpec(P: seq<Indexed>, d: Metric, t: int, marked: set<nat>, i: nat, j: nat)
    requires i < j <= |P| && Grown(P, d, t, marked, i, j).Some?
    ensures var r := Grown(P, d, t, marked, i, j).value;
      && (forall m1, m2 :: 0 <= m1 < m2 < |r| ==> r[m1] < r[m2])
      && (forall m :: 0 < m < |r| ==> r[m] !in marked && Close(d, P[i].hash, P[r[m]].hash, t))
      && (forall k :: i < k < j && k !in marked && Close(d, P[i].hash, P[k].hash, t) ==> k in r)
    decreases j
  {
    if j > i + 1 {
      GrownSpec(P, d, t, marked, i, j - 1);
    }
  }

  /** The inner loop runs to its end exactly when the seed and every unmarked later hash parse. */
  lemma {:induction false} GrownDefined(P: seq<Indexed>, d: Metric, t: int, marked: set<nat>, i: nat, j: nat)
    requires i < j <= |P| && DefinedOnHex(d)
    ensures Grown(P, d, t, marked, i, j).Some? <==>
      forall k :: i < k < j && k !in marked ==> Parses(P[i].hash) && Parses(P[k].hash)
    decreases j
  {
    if j > i + 1 {
      GrownDefined(P, d, t, marked, i, j - 1);
    }
  }

  /** Once a distance is undefined the inner loop is abandoned. */
  lemma {:induction false} GrownNoneStays(P: seq<Indexed>, d: Metric, t: int, marked: set<nat>, i: nat, j: nat, n: nat)
    requires i < j <= n <= |P| && Grown(P, d, t, marked, i, j).None?
    ensures Grown(P, d, t, marked, i, n).None?
    decreases n
  {
    if n > j {
      GrownNoneStays(P, d, t, marked, i, j, n - 1);
    }
  }

  /** Once a distance is undefined the whole grouping is abandoned. */
  lemma {:induction false} ScannedNoneStays(P: seq<Indexed>, d: Metric, t: int, i: nat, n: nat)
    requires i <= n <= |P| && Scanned(P, d, t, i).None?
    ensures Scanned(P, d, t, n).None?
    decreases n
  {
    if n > i {
      ScannedNoneStays(P, d, t, i, n - 1);
    }
  }

  /** When every hash parses, no distance is undefined. */
  lemma {:induction false} ScannedWhenAllParse(P: seq<Indexed>, d: Metric, t: int, i: nat)
    requires i <= |P| && DefinedOnHex(d) && forall k :: 0 <= k < |P| ==> Parses(P[k].hash)
    ensures Scanned(P, d, t, i).Some?
    decreases i
  {
    if i > 0 {
      ScannedWhenAllParse(P, d, t, i - 1);
      GrownDefined(P, d, t, Scanned(P, d, t, i - 1).value.used, i - 1, |P|);
    }
  }

  /** The grouping fails exactly when there are two hashes to compare and one
      of them does not parse: the first seed is compared with every later entry. */
  lemma ScannedDefined(P: seq<Indexed>, d: Metric, t: int)
    requires DefinedOnHex(d)
    ensures Scanned(P, d, t, |P|).None? <==> |P| >= 2 && SomeMalformed(P)
  {
    assert Scanned(P, d, t, 0) == Some(ScanState([], {}));
    if |P| >= 2 && SomeMalformed(P) {
      var k :| 0 <= k < |P| && !Parses(P[k].hash);
      var w := if k == 0 then 1 else k;
      GrownDefined(P, d, t, {}, 0, |P|);
      assert w !in {};
      assert Scanned(P, d, t, 1).None?;
      ScannedNoneStays(P, d, t, 1, |P|);
    } else if |P| >= 2 {
      ScannedWhenAllParse(P, d, t, |P|);
    } else if |P| == 1 {
      assert Grown(P, d, t, {}, 0, 1) == Some([0]);
    }
  }

  /** The marked positions are those below `i` and those in a kept group. */
  lemma {:induction false} ScannedMarks(P: seq<Indexed>, d: Metric, t: int, i: nat)
    requires i <= |P| && Scanned(P, d, t, i).Some?
    ensures var st := Scanned(P, d, t, i).value;
      forall k: nat :: k in st.used <==> k < i || InSome(st.idx, k)
    decreases i
  {
    if i > 0 {
      ScannedMarks(P, d, t, i - 1);
      var st := Scanned(P, d, t, i - 1).value;
      var s := i - 1;
      if s !in st.used {
        var g := Grown(P, d, t, st.used, s, |P|).value;
        var st' := Visited(st, s, g);
        assert Scanned(P, d, t, i) == Some(st');
        forall k: nat ensures k in st'.used <==> k < i || InSome(st'.idx, k) {
          if |g| >= 2 {
            InSomeAppend(st.idx, g, k);
          } else {
            assert g == [s];
          }
        }
      }
    }
  }

  /** The groups that `Scanned` computes are the seed-centric greedy grouping
      of the positions it has processed. */
  lemma {:induction false} ScanIsSeedCentric(P: seq<Indexed>, d: Metric, t: int, i: nat)
    requires i <= |P| && Scanned(P, d, t, i).Some?
    ensures GroupsUpTo(P, d, t, Scanned(P, d, t, i).value.idx, i)
    decreases i, 1
  {
    if i > 0 {
      ScanStep(P, d, t, i - 1);
    }
  }

  /** One seed of the outer loop keeps the grouping invariant. */
  lemma {:induction false} ScanStep(P: seq<Indexed>, d: Metric, t: int, s: nat)
    requires s < |P| && Scanned(P, d, t, s + 1).Some?
    ensures GroupsUpTo(P, d, t, Scanned(P, d, t, s + 1).value.idx, s + 1)
    decreases s + 1, 0
  {
    assert Scanned(P, d, t, s).Some?;
    ScanIsSeedCentric(P, d, t, s);
    ScannedMarks(P, d, t, s);
    var st := Scanned(P, d, t, s).value;
    var idx := st.idx;
    assert s in st.used <==> InSome(idx, s);
    if s in st.used {
      TakenSeed(P, d, t, idx, s);
    } else {
      var g := Grown(P, d, t, st.used, s, |P|).value;
      GrownSpec(P, d, t, st.used, s, |P|);
      assert forall k :: s < k ==> (k in st.used <==> InSome(idx, k));
      if |g| >= 2 {
        CloseGroup(P, d, t, idx, g, s);
      } else {
        assert g == [s];
        LoneSeed(P, d, t, idx, g, s);
      }
    }
  }

  /** Appending a group extends the reported paths by that group's paths. */
  lemma AppendGroup(P: seq<Indexed>, idx: seq<seq<nat>>, gi: seq<nat>)
    requires InRange(|P|, idx) && forall m :: 0 <= m < |gi| ==> gi[m] < |P|
    ensures InRange(|P|, idx + [gi])
    ensures GroupPaths(P, idx + [gi]) == GroupPaths(P, idx) + [PathsFor(P, gi)]
  {
  }

  /** Appending a completed group of at least two members keeps the grouping invariant. */
  lemma CloseGroup(P: seq<Indexed>, d: Metric, t: int, idx: seq<seq<nat>>, gi: seq<nat>, i: nat)
    requires i < |P| && GroupsUpTo(P, d, t, idx, i) && !InSome(idx, i)
    requires |gi| >= 2 && gi[0] == i
    requires forall m :: 0 <= m < |gi| ==> i <= gi[m] < |P|
    requires forall m1, m2 :: 0 <= m1 < m2 < |gi| ==> gi[m1] < gi[m2]
    requires forall m :: 0 < m < |gi| ==> Close(d, P[i].hash, P[gi[m]].hash, t) && !InSome(idx, gi[m])
    requires forall k :: i < k < |P| && Close(d, P[i].hash, P[k].hash, t) && !InSome(idx, k) ==> k in gi
    ensures GroupsUpTo(P, d, t, idx + [gi], i + 1)
    ensures forall k :: InSome(idx + [gi], k) <==> InSome(idx, k) || k in gi
  {
    var idx' := idx + [gi];
    forall k ensures InSome(idx', k) <==> InSome(idx, k) || k in gi {
      InSomeAppend(idx, gi, k);
    }
    assert WellShaped(|P|, idx');
    assert SeedsAscending(idx');
    DisjointAppend(idx, gi);
    assert MembersCloseToSeed(P, d, t, idx');
    GreedyCompleteAppend(P, d, t, idx, gi, i);
    LoneSeedsAppend(P, d, t, idx, gi, i);
  }

  lemma InSomeAppend(idx: seq<seq<nat>>, gi: seq<nat>, k: nat)
    ensures InSome(idx + [gi], k) <==> InSome(idx, k) || k in gi
  {
    var idx' := idx + [gi];
    if InSome(idx, k) {
      var g :| 0 <= g < |idx| && k in idx[g];
      assert idx'[g] == idx[g];
    }
    if k in gi {
      assert idx'[|idx|] == gi;
    }
    if InSome(idx', k) {
      var g :| 0 <= g < |idx'| && k in idx'[g];
      if g < |idx| {
        assert k in idx[g];
      }
    }
  }

  lemma DisjointAppend(idx: seq<seq<nat>>, gi: seq<nat>)
    requires Disjoint(idx)
    requires forall m :: 0 <= m < |gi| ==> !InSome(idx, gi[m])
    ensures Disjoint(idx + [gi])
  {
    var idx' := idx + [gi];
    forall g1, g2, j | 0 <= g1 < g2 < |idx'| && j in idx'[g1] ensures j !in idx'[g2] {
      if g2 == |idx| {
        assert idx'[g1] == idx[g1];
        assert InSome(idx, j);
      } else {
        assert idx'[g1] == idx[g1] && idx'[g2] == idx[g2];
      }
    }
  }

  lemma GreedyCompleteAppend(P: seq<Indexed>, d: Metric, t: int, idx: seq<seq<nat>>, gi: seq<nat>, i: nat)
    requires i < |P| && WellShaped(|P|, idx) && GreedyComplete(P, d, t, idx)
    requires |gi| >= 2 && gi[0] == i && WellShaped(|P|, idx + [gi])
    requires forall k :: i < k < |P| && Close(d, P[i].hash, P[k].hash, t) && !InSome(idx, k) ==> k in gi
    ensures GreedyComplete(P, d, t, idx + [gi])
  {
    var idx' := idx + [gi];
    forall g, j |
      (0 <= g < |idx'| && idx'[g][0] < j < |P| && Close(d, P[idx'[g][0]].hash, P[j].hash, t)
       && (forall g' :: 0 <= g' < g ==> j !in idx'[g']))
      ensures j in idx'[g]
    {
      if g == |idx| {
        forall g' | 0 <= g' < |idx| ensures j !in idx[g'] {
          assert idx'[g'] == idx[g'];
        }
        assert !InSome(idx, j);
      } else {
        assert forall g' :: 0 <= g' <= g ==> idx'[g'] == idx[g'];
      }
    }
  }

  lemma LoneSeedsAppend(P: seq<Indexed>, d: Metric, t: int, idx: seq<seq<nat>>, gi: seq<nat>, i: nat)
    requires i < |P| && WellShaped(|P|, idx) && LoneSeedsComplete(P, d, t, idx, i)
    requires |gi| >= 2 && gi[0] == i && WellShaped(|P|, idx + [gi])
    requires forall k :: InSome(idx + [gi], k) <==> InSome(idx, k) || k in gi
    ensures LoneSeedsComplete(P, d, t, idx + [gi], i + 1)
  {
    var idx' := idx + [gi];
    forall k, j | 0 <= k < j < |P| && k < i + 1 && !InSome(idx', k) && Close(d, P[k].hash, P[j].hash, t)
      ensures exists g :: 0 <= g < |idx'| && idx'[g][0] < k && j in idx'[g]
    {
      assert k != i by {
        assert i in gi;
      }
      var g :| 0 <= g < |idx| && idx[g][0] < k && j in idx[g];
      assert idx'[g] == idx[g];
    }
  }

  /** A position already taken by an earlier group opens no group. */
  lemma TakenSeed(P: seq<Indexed>, d: Metric, t: int, idx: seq<seq<nat>>, i: nat)
    requires i < |P| && GroupsUpTo(P, d, t, idx, i) && InSome(idx, i)
    ensures GroupsUpTo(P, d, t, idx, i + 1)
  {
  }

  /** A seed that attracted no member leaves the groups unchanged and is a lone seed. */
  lemma LoneSeed(P: seq<Indexed>, d: Metric, t: int, idx: seq<seq<nat>>, gi: seq<nat>, i: nat)
    requires i < |P| && GroupsUpTo(P, d, t, idx, i)
    requires gi == [i]
    requires forall k :: i < k < |P| && Close(d, P[i].hash, P[k].hash, t) && !InSome(idx, k) ==> k in gi
    ensures GroupsUpTo(P, d, t, idx, i + 1)
  {
    forall k, j | 0 <= k < j < |P| && k < i + 1 && !InSome(idx, k) && Close(d, P[k].hash, P[j].hash, t)
      ensures exists g :: 0 <= g < |idx| && idx[g][0] < k && j in idx[g]
    {
      if k == i {
        assert InSome(idx, j);
        var g :| 0 <= g < |idx| && j in idx[g];
        assert idx[g][0] < i;
      }
    }
  }

  /** Distinct positions of `indexed` carry distinct paths when the input paths are distinct,
      so no path is reported twice. */
  lemma NoPathTwice(entries: seq<Entry>, idx: seq<seq<nat>>, groups: seq<seq<RelPath>>)
    requires DistinctPaths(entries)
    requires WellShaped(|Present(entries)|, idx) && Disjoint(idx)
    requires InRange(|Present(entries)|, idx) && groups == GroupPaths(Present(entries), idx)
    ensures NoPathRepeated(groups)
  {
    var P := Present(entries);
    forall g1, m1, g2, m2 | 0 <= g1 < |groups| && 0 <= m1 < |groups[g1]| &&
      0 <= g2 < |groups| && 0 <= m2 < |groups[g2]| && (g1, m1) != (g2, m2)
      ensures groups[g1][m1] != groups[g2][m2]
    {
      var a, b := idx[g1][m1], idx[g2][m2];
      if g1 == g2 {
        assert a != b;
      } else if g1 < g2 {
        assert a in idx[g1];
        assert a != b;
      } else {
        assert b in idx[g2];
        assert a != b;
      }
      assert P[a].index != P[b].index;
    }
  }

  /** No entry without a hash is in a group: every reported path belongs to an
      input entry that has a hash, and it is that entry's path. */
  lemma GroupedEntriesHaveHashes(entries: seq<Entry>, idx: seq<seq<nat>>, groups: seq<seq<RelPath>>, g: nat, m: nat)
    requires InRange(|Present(entries)|, idx) && groups == GroupPaths(Present(entries), idx)
    requires g < |groups| && m < |groups[g]|
    ensures exists i :: 0 <= i < |entries| && entries[i].hash.Some? && entries[i].path == groups[g][m]
  {
    var P := Present(entries);
    var i := P[idx[g][m]].index;
    assert entries[i].hash.Some? && entries[i].path == groups[g][m];
  }

  /** Seed-centric, not transitive: when the first of three hashes is within
      the threshold of both others, the three form one group whatever the
      distance between the second and the third. */
  lemma {:induction false} SeedCentricNotTransitive(P: seq<Indexed>, d: Metric, t: int, idx: seq<seq<nat>>)
    requires |P| == 3
    requires Close(d, P[0].hash, P[1].hash, t) && Close(d, P[0].hash, P[2].hash, t)
    requires SeedCentricGroups(P, d, t, idx)
    ensures idx == [[0, 1, 2]]
  {
    FirstThreeGrouped(P, d, t, idx);
  }

  lemma {:induction false} FirstThreeGrouped(P: seq<Indexed>, d: Metric, t: int, idx: seq<seq<nat>>)
    requires |P| == 3
    requires Close(d, P[0].hash, P[1].hash, t) && Close(d, P[0].hash, P[2].hash, t)
    requires WellShaped(|P|, idx) && SeedsAscending(idx) && Disjoint(idx)
    requires GreedyComplete(P, d, t, idx) && LoneSeedsComplete(P, d, t, idx, |P|)
    ensures idx == [[0, 1, 2]]
  {
    // Position 0 cannot be a lone seed: no group has a seed before it.
    assert InSome(idx, 0);
    var g0 :| 0 <= g0 < |idx| && 0 in idx[g0];
    SeedIsLeast(idx, |P|, g0, 0);
    SeedOrder(idx, |P|, 0, g0);
    assert idx[0][0] in idx[0];
    assert g0 == 0;
    // The first group takes both later positions.
    assert 1 in idx[0] && 2 in idx[0];
    IncreasingAtLeastIndex(idx[0], |idx[0]| - 1);
    assert idx[0] == [0, 1, 2];
    // A second group would need a seed below 3, and every such position is taken.
    var last := idx[|idx| - 1];
    assert last[0] in last;
  }

  /** The seed is the smallest position of its group. */
  lemma SeedIsLeast(idx: seq<seq<nat>>, n: nat, g: nat, j: nat)
    requires WellShaped(n, idx) && g < |idx| && j in idx[g]
    ensures idx[g][0] <= j
  {
    var m :| 0 <= m < |idx[g]| && idx[g][m] == j;
    if m > 0 {
      assert idx[g][0] < idx[g][m];
    }
  }

  /** Seeds of later groups are not smaller. */
  lemma SeedOrder(idx: seq<seq<nat>>, n: nat, g1: nat, g2: nat)
    requires WellShaped(n, idx) && SeedsAscending(idx) && g1 <= g2 < |idx|
    ensures idx[g1][0] <= idx[g2][0]
  {
    if g1 < g2 {
      assert idx[g1][0] < idx[g2][0];
    }
  }

  /** In a strictly increasing sequence of naturals, the element at position k is at least k. */
  lemma {:induction false} IncreasingAtLeastIndex(s: seq<nat>, k: nat)
    requires k < |s|
    requires forall m1, m2 :: 0 <= m1 < m2 < |s| ==> s[m1] < s[m2]
    ensures s[k] >= k
  {
    if k > 0 {
      IncreasingAtLeastIndex(s, k - 1);
      assert s[k - 1] < s[k];
    }
  }
}
