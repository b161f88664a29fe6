/** The duplicate scan driver: argument checks, the split of the gathered
    files into those to hash again and those whose cached hash is still
    valid, the merge of fresh worker results into the cache and the entry
    map, the choice of the file to keep in each group, and the moves of the
    others into a duplicates folder. */
module Scan {
  import opened Common
  import opened Paths
  import opened ImageProcessing
  import opened Cache
  import opened Grouping
  import opened SafeMove

  /** The largest meaningful threshold: a hash has 64 bits. */
  const MaxThreshold: int := 64

  /** Depth used when no `-R` is given (and the value `-R` alone stands for). */
  const DefaultDepth: int := 5

  /** Two modification times closer than this count as equal. */
  const MtimeTolerance: real := 0.000001

  /** The exit status the argument checks stop with, or None to go on scanning. */
  function CheckArgs(workdirIsDir: bool, threshold: int): (r: Option<int>)
    ensures r == Some(1) <==> !workdirIsDir
    ensures r == Some(2) <==> workdirIsDir && (threshold < 0 || threshold > MaxThreshold)
    ensures r.None? <==> workdirIsDir && 0 <= threshold <= MaxThreshold
  {
    if !workdirIsDir then Some(1)
    else if threshold < 0 || threshold > MaxThreshold then Some(2)
    else None
  }

  /** `args.recursive if args.recursive is not None else 5`. */
  function MaxDepth(recursive: Option<int>): int
  {
    if recursive.Some? then recursive.value else DefaultDepth
  }

  function Abs(x: real): real
  {
    if x < 0.0 then -x else x
  }

  /** An entry of `entries_from_db`: `(rel, hash, size, mtime)`. */
  datatype Cached = Cached(rel: RelPath, hash: Option<string>, size: nat, mtime: real)

  /** The cached hash of `rel` can be reused: no forced rescan, the cache
      knows the path, the file's stat succeeded, and it reports the cached
      size and an mtime within the tolerance of the cached one. */
  predicate Reusable(force: bool, dbMeta: map<RelPath, Meta>, rel: RelPath, stat: Option<(nat, real)>)
  {
    && !force && rel in dbMeta && stat.Some?
    && dbMeta[rel].size == stat.value.0
    && Abs(dbMeta[rel].mtime - stat.value.1) <= MtimeTolerance
  }

  function CachedOf(dbMeta: map<RelPath, Meta>, rel: RelPath): Cached
    requires rel in dbMeta
  {
    Cached(rel, dbMeta[rel].hash, dbMeta[rel].size, dbMeta[rel].mtime)
  }

  /** The files sent to the workers, in gathering order. */
  function Stale(files: seq<RelPath>, stat: RelPath -> Option<(nat, real)>, dbMeta: map<RelPath, Meta>, force: bool)
    : (r: seq<RelPath>)
    ensures |r| <= |files|
    ensures forall k :: 0 <= k < |r| ==> r[k] in files
    decreases |files|
  {
    if files == [] then []
    else
      var p := files[|files| - 1];
      Stale(files[..|files| - 1], stat, dbMeta, force) + (if Reusable(force, dbMeta, p, stat(p)) then [] else [p])
  }

  /** `entries_from_db` after the split: the reusable files with their cached data. */
  function Reused(files: seq<RelPath>, stat: RelPath -> Option<(nat, real)>, dbMeta: map<RelPath, Meta>, force: bool)
    : (r: OrderedMap<RelPath, Cached>)
    ensures r.Valid()
    ensures forall p :: p in r.entries ==> p in files
    decreases |files|
  {
    if files == [] then EmptyOrderedMap()
    else
      var p := files[|files| - 1];
      var front := Reused(files[..|files| - 1], stat, dbMeta, force);
      if Reusable(force, dbMeta, p, stat(p)) then front.Put(p, CachedOf(dbMeta, p)) else front
  }

  /** The loop over `all_files` that fills `to_process` and `entries_from_db`. */
  method Partition(files: seq<RelPath>, stat: RelPath -> Option<(nat, real)>, dbMeta: map<RelPath, Meta>, force: bool)
    returns (toProcess: seq<RelPath>, fromDb: OrderedMap<RelPath, Cached>)
    ensures toProcess == Stale(files, stat, dbMeta, force)
    ensures fromDb == Reused(files, stat, dbMeta, force) && fromDb.Valid()
  {
    toProcess := [];
    fromDb := EmptyOrderedMap();
    for i := 0 to |files|
      invariant toProcess == Stale(files[..i], stat, dbMeta, force)
      invariant fromDb == Reused(files[..i], stat, dbMeta, force)
    {
      var p := files[i];
      assert files[..i + 1][..i] == files[..i];
      var st := stat(p);
      if force || p !in dbMeta {
        toProcess := toProcess + [p];
      } else {
        var meta := dbMeta[p];
        if st.None? || meta.size != st.value.0 || Abs(meta.mtime - st.value.1) > MtimeTolerance {
          toProcess := toProcess + [p];
        } else {
          fromDb := fromDb.Put(p, Cached(p, meta.hash, meta.size, meta.mtime));
        }
      }
    }
    assert files[..|files|] == files;
  }

  /** Every gathered file lands in exactly one bucket: it is sent to the
      workers exactly when its cached hash cannot be reused, and kept from the
      cache, with the cached hash, size and mtime, exactly when it can. */
  lemma {:induction false} PartitionExact(files: seq<RelPath>, stat: RelPath -> Option<(nat, real)>,
                                          dbMeta: map<RelPath, Meta>, force: bool, p: RelPath)
    ensures p in Stale(files, stat, dbMeta, force) <==> p in files && !Reusable(force, dbMeta, p, stat(p))
    ensures p in Reused(files, stat, dbMeta, force).entries <==> p in files && Reusable(force, dbMeta, p, stat(p))
    ensures p in Reused(files, stat, dbMeta, force).entries ==>
              Reused(files, stat, dbMeta, force).entries[p] == CachedOf(dbMeta, p)
    decreases |files|
  {
    if files != [] {
      var front := files[..|files| - 1];
      PartitionExact(front, stat, dbMeta, force, p);
      assert files == front + [files[|files| - 1]];
    }
  }

  /** With `--force-rescan` every gathered file is hashed again, in order, and nothing is reused. */
  lemma {:induction false} ForceRescanAll(files: seq<RelPath>, stat: RelPath -> Option<(nat, real)>, dbMeta: map<RelPath, Meta>)
    ensures Stale(files, stat, dbMeta, true) == files
    ensures Reused(files, stat, dbMeta, true).entries == map[]
    decreases |files|
  {
    if files != [] {
      ForceRescanAll(files[..|files| - 1], stat, dbMeta);
      assert files == files[..|files| - 1] + [files[|files| - 1]];
    }
  }

  /** The results the workers delivered, in order, without the `None`s. */
  function Delivered(out: seq<Option<WorkerResult>>): (r: seq<WorkerResult>)
    ensures |r| <= |out|
    ensures forall k :: 0 <= k < |r| ==> Some(r[k]) in out
    decreases |out|
  {
    if out == [] then []
    else
      var front := Delivered(out[..|out| - 1]);
      var last := out[|out| - 1];
      assert forall x :: x in out[..|out| - 1] ==> x in out;
      if last.Some? then front + [last.value] else front
  }

  /** The results are kept in the order the workers delivered them, each
      once: a `Some` contributes its value, a `None` nothing. */
  lemma {:induction false} DeliveredAppend(a: seq<Option<WorkerResult>>, b: seq<Option<WorkerResult>>)
    ensures Delivered(a + b) == Delivered(a) + Delivered(b)
    ensures forall o: Option<WorkerResult> :: Delivered([o]) == if o.Some? then [o.value] else []
    decreases |b|
  {
    if b == [] {
      assert a + b == a;
    } else {
      var front := b[..|b| - 1];
      assert (a + b)[..|a + b| - 1] == a + front;
      assert (a + b)[|a + b| - 1] == b[|b| - 1];
      DeliveredAppend(a, front);
    }
    forall o: Option<WorkerResult> ensures Delivered([o]) == if o.Some? then [o.value] else [] {
      assert [o][..0] == [];
    }
  }

  /** Every result a worker delivered is kept. */
  lemma {:induction false} DeliveredComplete(out: seq<Option<WorkerResult>>, w: WorkerResult)
    requires Some(w) in out
    ensures w in Delivered(out)
    decreases |out|
  {
    if out[|out| - 1] != Some(w) {
      var k :| 0 <= k < |out| && out[k] == Some(w);
      assert out[..|out| - 1][k] == Some(w);
      DeliveredComplete(out[..|out| - 1], w);
    }
  }

  /** `(rel, hash, size, mtime)` for a worker result. */
  function CachedFromResult(w: WorkerResult): Cached
  {
    Cached(w.relpath, w.hash, w.size, w.mtime)
  }

  /** `entries_from_db[r[0]] = (r[0], r[1], r[3], r[4])` for each result in turn. */
  function PutResults(m: OrderedMap<RelPath, Cached>, results: seq<WorkerResult>): (r: OrderedMap<RelPath, Cached>)
    requires m.Valid()
    ensures r.Valid()
    decreases |results|
  {
    if results == [] then m
    else
      var w := results[|results| - 1];
      PutResults(m, results[..|results| - 1]).Put(w.relpath, CachedFromResult(w))
  }

  function CachedPairs(results: seq<WorkerResult>): (r: seq<(RelPath, Cached)>)
    ensures |r| == |results| && forall k :: 0 <= k < |r| ==> r[k] == (results[k].relpath, CachedFromResult(results[k]))
  {
    seq(|results|, k requires 0 <= k < |results| => (results[k].relpath, CachedFromResult(results[k])))
  }

  /** The merged map holds what the results write over it one after another. */
  lemma {:induction false} PutResultsOverlay(m: OrderedMap<RelPath, Cached>, results: seq<WorkerResult>)
    requires m.Valid()
    ensures PutResults(m, results).entries == Overlay(m.entries, CachedPairs(results))
    decreases |results|
  {
    if results != [] {
      var front := results[..|results| - 1];
      PutResultsOverlay(m, front);
      assert CachedPairs(results)[..|results| - 1] == CachedPairs(front);
    }
  }

  /** After the merge, a path some result delivered maps to its last such
      result, and every other path keeps what the split left for it. */
  lemma MergeWins(m: OrderedMap<RelPath, Cached>, results: seq<WorkerResult>, p: RelPath)
    requires m.Valid()
    ensures forall k :: (0 <= k < |results| && results[k].relpath == p
                         && forall j :: k < j < |results| ==> results[j].relpath != p) ==>
              p in PutResults(m, results).entries && PutResults(m, results).entries[p] == CachedFromResult(results[k])
    ensures (forall k :: 0 <= k < |results| ==> results[k].relpath != p) ==>
              (p in PutResults(m, results).entries) == (p in m.entries)
              && (p in m.entries ==> PutResults(m, results).entries[p] == m.entries[p])
  {
    PutResultsOverlay(m, results);
    var pairs := CachedPairs(results);
    forall k | 0 <= k < |results| && results[k].relpath == p && forall j :: k < j < |results| ==> results[j].relpath != p
      ensures p in PutResults(m, results).entries && PutResults(m, results).entries[p] == CachedFromResult(results[k])
    {
      OverlayLastWins(m.entries, pairs, k);
    }
    if forall k :: 0 <= k < |results| ==> results[k].relpath != p {
      OverlayUntouched(m.entries, pairs, p);
    }
  }

  /** Lines 80-96: the results that are not None are upserted into the cache
      in one batch and then written over `entries_from_db`. */
  method MergeResults(store: CacheStore, fromDb: OrderedMap<RelPath, Cached>, out: seq<Option<WorkerResult>>)
    returns (results: seq<WorkerResult>, merged: OrderedMap<RelPath, Cached>)
    requires fromDb.Valid()
    modifies store
    ensures results == Delivered(out)
    ensures store.rows == Upserted(old(store.rows), results)
    ensures merged == PutResults(fromDb, results)
  {
    results := [];
    for i := 0 to |out|
      invariant results == Delivered(out[..i])
    {
      assert out[..i + 1][..i] == out[..i];
      if out[i].Some? {
        results := results + [out[i].value];
      }
    }
    assert out[..|out|] == out;
    store.UpsertEntries(results);
    merged := fromDb;
    for i := 0 to |results|
      invariant merged == PutResults(fromDb, results[..i])
    {
      assert results[..i + 1][..i] == results[..i];
      merged := merged.Put(results[i].relpath, CachedFromResult(results[i]));
    }
    assert results[..|results|] == results;
  }

  /** Lines 100-102: the entries handed to the grouper, in the dict's order. */
  function EntriesOf(m: OrderedMap<RelPath, Cached>): (r: seq<Entry>)
    requires m.Valid()
    ensures |r| == |m.order|
    ensures forall k :: 0 <= k < |r| ==> r[k].path == m.order[k] && r[k].hash == m.entries[m.order[k]].hash
  {
    var items := m.Items();
    seq(|items|, k requires 0 <= k < |items| => Entry(items[k].0, items[k].1.hash))
  }

  /** Position `k` holds the first highest score of the group, and that score
      beats the initial `best_score` of -1. */
  predicate FirstMax(group: seq<RelPath>, score: RelPath -> real, k: nat)
  {
    && k < |group| && score(group[k]) > -1.0
    && (forall j :: 0 <= j < |group| ==> score(group[j]) <= score(group[k]))
    && (forall j :: 0 <= j < k ==> score(group[j]) < score(group[k]))
  }

  /** The position of the keeper: the first member with the highest score,
      or none when no score exceeds -1. */
  function KeeperIndex(group: seq<RelPath>, score: RelPath -> real): (r: Option<nat>)
    ensures r.None? <==> forall j :: 0 <= j < |group| ==> score(group[j]) <= -1.0
    ensures r.Some? ==> FirstMax(group, score, r.value)
    decreases |group|
  {
    if group == [] then None
    else
      var front := group[..|group| - 1];
      var rf := KeeperIndex(front, score);
      var bestScore := if rf.Some? then score(front[rf.value]) else -1.0;
      assert forall j :: 0 <= j < |front| ==> front[j] == group[j];
      if score(group[|group| - 1]) > bestScore then Some(|group| - 1) else rf
  }

  function KeeperOf(group: seq<RelPath>, score: RelPath -> real): (r: Option<RelPath>)
  {
    var k := KeeperIndex(group, score);
    if k.Some? then Some(group[k.value]) else None
  }

  /** Lines 115-130: `best` is replaced only by a strictly higher score. */
  method SelectKeeper(group: seq<RelPath>, score: RelPath -> real) returns (best: Option<RelPath>)
    ensures best == KeeperOf(group, score)
  {
    best := None;
    var bestScore := -1.0;
    for i := 0 to |group|
      invariant var k := KeeperIndex(group[..i], score);
                && (k.None? ==> best.None? && bestScore == -1.0)
                && (k.Some? ==> best == Some(group[k.value]) && bestScore == score(group[k.value]))
    {
      assert group[..i + 1][..i] == group[..i];
      var s := score(group[i]);
      if s > bestScore {
        bestScore := s;
        best := Some(group[i]);
      }
    }
    assert group[..|group|] == group;
  }

  /** The score every member gets as the program is written: the name `np` is
      not bound, so computing the Laplacian raises and the handler scores 0.0. */
  function AsWrittenScore(rel: RelPath): real
  {
    0.0
  }

  /** As written, the keeper is always the group's first member, its seed,
      whatever the sharpness of the images. */
  lemma SeedKeptAsWritten(group: seq<RelPath>)
    requires |group| > 0
    ensures KeeperIndex(group, AsWrittenScore) == Some(0)
  {
    var k := KeeperIndex(group, AsWrittenScore);
    assert AsWrittenScore(group[0]) > -1.0;
  }

  /** A pair whose second member is the sharper one: the intended scores keep
      the second member, the scores as written keep the first. */
  lemma SharperSecondMember(a: RelPath, b: RelPath, score: RelPath -> real)
    requires score(a) == 1.0 && score(b) == 2.0
    ensures KeeperOf([a, b], score) == Some(b)
    ensures KeeperOf([a, b], AsWrittenScore) == Some(a)
  {
    SeedKeptAsWritten([a, b]);
    assert [a, b][0] == a && [a, b][1] == b;
  }

  /** The folder a duplicate is moved into: a duplicates folder beside the
      file when the scan is recursive, one in the working directory otherwise. */
  function DestDir(rel: RelPath, maxDepth: int, dupName: string): (r: RelPath)
    requires |rel| > 0
    ensures |r| > 0 && Name(r) == dupName
    ensures maxDepth > 0 ==> Parent(r) == Parent(rel)
    ensures maxDepth <= 0 ==> r == [dupName]
  {
    if maxDepth > 0 then Parent(rel) + [dupName] else [dupName]
  }

  /** What the move loop needs from outside: the recursion depth, the name of
      the duplicates folder, whether `mkdir` succeeds for a missing duplicates
      folder, whether `shutil.move` succeeds for a file, and the
      `(size, mtime)` of a moved file. */
  datatype MoveEnv = MoveEnv(maxDepth: int, dupName: string, mkdirOk: RelPath -> bool, moveOk: RelPath -> bool,
                             statAfter: RelPath -> (nat, real))

  /** Without `-R` the scan is recursive, so each duplicate goes into a
      duplicates folder beside it; `-R 0` sends them all to the working
      directory's duplicates folder. */
  lemma DefaultDepthMovesBeside(rel: RelPath, dupName: string)
    requires |rel| > 0
    ensures Parent(DestDir(rel, MaxDepth(None), dupName)) == Parent(rel)
    ensures DestDir(rel, MaxDepth(Some(0)), dupName) == [dupName]
  {
  }

  /** The members that get a move attempt: all but the keeper, in order. */
  function Others(group: seq<RelPath>, best: Option<RelPath>): (r: seq<RelPath>)
    ensures |r| <= |group|
    ensures AllNamed(group) ==> AllNamed(r)
    decreases |group|
  {
    if group == [] then []
    else
      var rel := group[|group| - 1];
      var front := Others(group[..|group| - 1], best);
      assert AllNamed(group) ==> AllNamed(group[..|group| - 1]) && |rel| > 0;
      front + (if Some(rel) == best then [] else [rel])
  }

  /** The members are queued in group order: the queue of a concatenation is
      the concatenation of the queues. */
  lemma {:induction false} OthersAppend(a: seq<RelPath>, b: seq<RelPath>, best: Option<RelPath>)
    ensures Others(a + b, best) == Others(a, best) + Others(b, best)
    decreases |b|
  {
    if b != [] {
      var front := b[..|b| - 1];
      var last := b[|b| - 1];
      assert (a + b)[..|a + b| - 1] == a + front;
      OthersAppend(a, front, best);
      var tail := if Some(last) == best then [] else [last];
      calc {
        Others(a + b, best);
        Others(a + front, best) + tail;
        Others(a, best) + Others(front, best) + tail;
        Others(a, best) + (Others(front, best) + tail);
      }
    } else {
      assert a + b == a;
    }
  }

  /** A single member is queued exactly when it is not the keeper. */
  lemma OthersSingle(rel: RelPath, best: Option<RelPath>)
    ensures Others([rel], best) == if Some(rel) == best then [] else [rel]
  {
    assert [rel][..0] == [];
  }

  /** Every occurrence of a member other than the keeper is queued for a move
      exactly once, and the keeper never is; a queued file is attempted
      unless a failing `mkdir` ended the run before its turn. */
  lemma {:induction false} OthersCount(group: seq<RelPath>, best: Option<RelPath>, rel: RelPath)
    ensures Some(rel) == best ==> multiset(Others(group, best))[rel] == 0
    ensures Some(rel) != best ==> multiset(Others(group, best))[rel] == multiset(group)[rel]
    decreases |group|
  {
    if group != [] {
      var front := group[..|group| - 1];
      OthersCount(front, best, rel);
      assert group == front + [group[|group| - 1]];
    }
  }

  /** The keeper, when it is a member, is left out of the attempts. */
  lemma {:induction false} OthersSize(group: seq<RelPath>, best: Option<RelPath>)
    ensures best.Some? && best.value in group ==> |Others(group, best)| < |group|
    decreases |group|
  {
    if group != [] {
      var front := group[..|group| - 1];
      OthersSize(front, best);
      if best.Some? && best.value in group && best.value != group[|group| - 1] {
        assert best.value in front by {
          var k :| 0 <= k < |group| && group[k] == best.value;
          assert front[k] == group[k];
        }
      }
    }
  }

  predicate AllNamed(paths: seq<RelPath>)
  {
    forall k :: 0 <= k < |paths| ==> |paths[k]| > 0
  }

  /** The number of moves that succeeded, the table and the folders after
      lines 132-151 for each of `srcs` in turn, and whether a `mkdir` of a
      duplicates folder raised. Such an exception is raised before the `try`,
      so it leaves `main`: no later file or group is attempted, and neither
      the summary nor `conn.close()` is reached. */
  datatype Effects = Effects(moved: nat, rows: map<RelPath, Row>, listing: map<RelPath, set<string>>, aborted: bool)

  /** The listing after `mkdir` of a folder that did not exist: the new
      folder is empty and its name appears in its parent folder. */
  function AfterMkdir(listing: map<RelPath, set<string>>, dir: RelPath): (r: map<RelPath, set<string>>)
    requires |dir| > 0 && dir !in listing
    ensures dir in r && NamesIn(r, dir) == {}
    ensures Name(dir) in NamesIn(r, Parent(dir))
  {
    listing[dir := {}][Parent(dir) := NamesIn(listing, Parent(dir)) + {Name(dir)}]
  }

  /** `mkdir` only adds: every folder keeps the names it had, and only the
      parent of the new folder gains one. */
  lemma AfterMkdirAdds(listing: map<RelPath, set<string>>, dir: RelPath)
    requires |dir| > 0 && dir !in listing
    ensures forall d :: NamesIn(listing, d) <= NamesIn(AfterMkdir(listing, dir), d)
    ensures forall d :: d != Parent(dir) ==> NamesIn(AfterMkdir(listing, dir), d) == NamesIn(listing, d)
  {
  }

  /** Lines 136-151 for one file: its duplicates folder is created when it does
      not exist, then `safe_move_and_update` moves the file, counted when it
      succeeds. Once the run has been ended nothing more happens. */
  function MoveOne(e: Effects, rel: RelPath, env: MoveEnv): (r: Effects)
    requires |rel| > 0
    ensures r.moved <= e.moved + 1
    ensures e.aborted ==> r == e
    ensures r.moved != e.moved + 1 ==> r.moved == e.moved
    ensures var dst := DestDir(rel, env.maxDepth, env.dupName);
            var listing := if dst in e.listing then e.listing else AfterMkdir(e.listing, dst);
            r.moved == e.moved + 1
            <==> && !e.aborted && (dst in e.listing || env.mkdirOk(dst))
                 && SafeMoved(e.rows, listing, rel, dst, env.moveOk(rel), env.statAfter).result.Success?
  {
    var dst := DestDir(rel, env.maxDepth, env.dupName);
    if e.aborted then e
    else if dst !in e.listing && !env.mkdirOk(dst) then Effects(e.moved, e.rows, e.listing, true)
    else
      var listing := if dst in e.listing then e.listing else AfterMkdir(e.listing, dst);
      var m := SafeMoved(e.rows, listing, rel, dst, env.moveOk(rel), env.statAfter);
      Effects(if m.result.Success? then e.moved + 1 else e.moved, m.rows, m.listing, false)
  }

  /** The reference moves of `srcs`, in order, from the state `e`: at most one
      more counted move per file, and nothing at all once the run has ended. */
  function MovedAll(e: Effects, srcs: seq<RelPath>, env: MoveEnv): (r: Effects)
    requires AllNamed(srcs)
    ensures r.moved <= e.moved + |srcs|
    ensures e.aborted ==> r == e
    decreases |srcs|
  {
    if srcs == [] then e
    else MoveOne(MovedAll(e, srcs[..|srcs| - 1], env), srcs[|srcs| - 1], env)
  }

  /** When every `mkdir` succeeds the run is never ended early. */
  lemma {:induction false} MovedAllCompletes(e: Effects, srcs: seq<RelPath>, env: MoveEnv)
    requires AllNamed(srcs)
    requires forall d :: env.mkdirOk(d)
    ensures MovedAll(e, srcs, env).aborted == e.aborted
    decreases |srcs|
  {
    if srcs != [] {
      assert AllNamed(srcs[..|srcs| - 1]) by {
        assert forall k :: 0 <= k < |srcs| - 1 ==> srcs[..|srcs| - 1][k] == srcs[k];
      }
      MovedAllCompletes(e, srcs[..|srcs| - 1], env);
    }
  }

  /** Moving one more file continues from where the others left things. */
  lemma MovedAllSnoc(e: Effects, srcs: seq<RelPath>, rel: RelPath, env: MoveEnv)
    requires AllNamed(srcs) && |rel| > 0
    ensures AllNamed(srcs + [rel])
    ensures MovedAll(e, srcs + [rel], env) == MoveOne(MovedAll(e, srcs, env), rel, env)
  {
    assert (srcs + [rel])[..|srcs|] == srcs;
  }

  /** With the cache in step with the disk, a move whose `mkdir` and
      `shutil.move` succeed is counted, and the cache stays in step. */
  lemma MoveOneCounted(e: Effects, rel: RelPath, env: MoveEnv)
    requires |rel| > 0 && !e.aborted && CacheOnDisk(e.rows, e.listing)
    requires env.mkdirOk(DestDir(rel, env.maxDepth, env.dupName)) && env.moveOk(rel)
    ensures MoveOne(e, rel, env).moved == e.moved + 1
    ensures !MoveOne(e, rel, env).aborted
    ensures CacheOnDisk(MoveOne(e, rel, env).rows, MoveOne(e, rel, env).listing)
  {
    var dst := DestDir(rel, env.maxDepth, env.dupName);
    var listing := if dst in e.listing then e.listing else AfterMkdir(e.listing, dst);
    if dst !in e.listing {
      AfterMkdirAdds(e.listing, dst);
    }
    SafeMovedInStep(e.rows, listing, rel, dst, env.statAfter);
  }

  /** When every `mkdir` and every `shutil.move` succeeds and the cache is in
      step with the disk, every queued file is moved and counted. */
  lemma {:induction false} MovedAllCounted(e: Effects, srcs: seq<RelPath>, env: MoveEnv)
    requires AllNamed(srcs) && !e.aborted && CacheOnDisk(e.rows, e.listing)
    requires forall d :: env.mkdirOk(d)
    requires forall k :: 0 <= k < |srcs| ==> env.moveOk(srcs[k])
    ensures MovedAll(e, srcs, env).moved == e.moved + |srcs|
    ensures !MovedAll(e, srcs, env).aborted
    ensures CacheOnDisk(MovedAll(e, srcs, env).rows, MovedAll(e, srcs, env).listing)
    decreases |srcs|
  {
    if srcs != [] {
      var front := srcs[..|srcs| - 1];
      assert forall k :: 0 <= k < |front| ==> front[k] == srcs[k];
      MovedAllCounted(e, front, env);
      MoveOneCounted(MovedAll(e, front, env), srcs[|srcs| - 1], env);
    }
  }

  /** One more member of the group: the keeper adds nothing, any other member adds one move. */
  lemma MovedAllStep(e: Effects, group: seq<RelPath>, i: nat, best: Option<RelPath>, env: MoveEnv)
    requires i < |group| && AllNamed(group)
    ensures AllNamed(Others(group[..i], best)) && AllNamed(Others(group[..i + 1], best))
    ensures MovedAll(e, Others(group[..i + 1], best), env)
            == if Some(group[i]) == best then MovedAll(e, Others(group[..i], best), env)
               else MoveOne(MovedAll(e, Others(group[..i], best), env), group[i], env)
  {
    assert group[..i + 1][..i] == group[..i];
    assert AllNamed(group[..i + 1]);
    assert AllNamed(group[..i]);
    if Some(group[i]) != best {
      assert Others(group[..i + 1], best) == Others(group[..i], best) + [group[i]];
      MovedAllSnoc(e, Others(group[..i], best), group[i], env);
    } else {
      assert Others(group[..i + 1], best) == Others(group[..i], best);
    }
  }

  /** Lines 132-151 for one group, continuing the running `moved_count`: every
      member but the keeper is moved into its duplicates folder, created first
      when missing, and only a move that raised nothing is counted. A failing
      `mkdir` ends the run, after which the loop does nothing. */
  method MoveGroup(store: CacheStore, disk: Disk, group: seq<RelPath>, best: Option<RelPath>, env: MoveEnv,
                   moved0: nat, aborted0: bool)
    returns (moved: nat, aborted: bool)
    requires AllNamed(group)
    modifies store, disk
    ensures AllNamed(Others(group, best))
    ensures Effects(moved, store.rows, disk.listing, aborted)
            == MovedAll(Effects(moved0, old(store.rows), old(disk.listing), aborted0), Others(group, best), env)
  {
    moved, aborted := moved0, aborted0;
    ghost var start := Effects(moved0, store.rows, disk.listing, aborted0);
    for i := 0 to |group|
      invariant Effects(moved, store.rows, disk.listing, aborted) == MovedAll(start, Others(group[..i], best), env)
    {
      moved, aborted := MoveIfNotKept(store, disk, group, i, best, env, start, moved, aborted);
    }
    assert group[..|group|] == group;
  }

  /** One turn of the loop over a group: the member at `i` is moved unless it
      is the keeper. */
  method MoveIfNotKept(store: CacheStore, disk: Disk, group: seq<RelPath>, i: nat, best: Option<RelPath>,
                       env: MoveEnv, ghost start: Effects, moved: nat, aborted: bool)
    returns (moved': nat, aborted': bool)
    requires i < |group| && AllNamed(group)
    requires Effects(moved, store.rows, disk.listing, aborted) == MovedAll(start, Others(group[..i], best), env)
    modifies store, disk
    ensures Effects(moved', store.rows, disk.listing, aborted') == MovedAll(start, Others(group[..i + 1], best), env)
  {
    MovedAllStep(start, group, i, best, env);
    moved', aborted' := moved, aborted;
    if Some(group[i]) != best {
      moved', aborted' := MoveMember(store, disk, group[i], env, moved, aborted);
    }
  }

  /** Lines 136-151 for one member that is not the keeper. */
  method MoveMember(store: CacheStore, disk: Disk, rel: RelPath, env: MoveEnv, moved: nat, aborted: bool)
    returns (moved': nat, aborted': bool)
    requires |rel| > 0
    modifies store, disk
    ensures Effects(moved', store.rows, disk.listing, aborted')
            == MoveOne(Effects(moved, old(store.rows), old(disk.listing), aborted), rel, env)
  {
    moved', aborted' := moved, aborted;
    if aborted {
      return;
    }
    var dst := DestDir(rel, env.maxDepth, env.dupName);
    if dst !in disk.listing {
      if !env.mkdirOk(dst) {
        aborted' := true;
        return;
      }
      disk.listing := AfterMkdir(disk.listing, dst);
    }
    var r := SafeMoveAndUpdate(store, disk, rel, dst, env.moveOk(rel), env.statAfter);
    if r.Success? {
      moved' := moved + 1;
    }
  }

  predicate AllGroupsNamed(groups: seq<seq<RelPath>>)
  {
    forall k :: 0 <= k < |groups| ==> AllNamed(groups[k])
  }

  /** `moved_count`, the table and the folders after lines 113-151, and
      whether the run was ended by a failing `mkdir`: the groups in order,
      each keeping its keeper under `score` and moving the others. */
  function MovedGroups(rows: map<RelPath, Row>, listing: map<RelPath, set<string>>, groups: seq<seq<RelPath>>,
                       score: RelPath -> real, env: MoveEnv): (r: Effects)
    requires AllGroupsNamed(groups)
    ensures r.moved <= Members(groups)
    decreases |groups|
  {
    if groups == [] then Effects(0, rows, listing, false)
    else
      var front := groups[..|groups| - 1];
      assert AllGroupsNamed(front) by {
        assert forall k :: 0 <= k < |front| ==> front[k] == groups[k];
      }
      var g := groups[|groups| - 1];
      MovedAll(MovedGroups(rows, listing, front, score, env), Others(g, KeeperOf(g, score)), env)
  }

  /** When every `mkdir` succeeds, every group is processed. */
  lemma {:induction false} MovedGroupsComplete(rows: map<RelPath, Row>, listing: map<RelPath, set<string>>,
                                               groups: seq<seq<RelPath>>, score: RelPath -> real, env: MoveEnv)
    requires AllGroupsNamed(groups)
    requires forall d :: env.mkdirOk(d)
    ensures !MovedGroups(rows, listing, groups, score, env).aborted
    decreases |groups|
  {
    if groups != [] {
      var front := groups[..|groups| - 1];
      assert forall k :: 0 <= k < |front| ==> front[k] == groups[k];
      MovedGroupsComplete(rows, listing, front, score, env);
      var g := groups[|groups| - 1];
      MovedAllCompletes(MovedGroups(rows, listing, front, score, env), Others(g, KeeperOf(g, score)), env);
    }
  }

  /** The number of files queued for a move: all members but the keepers. */
  function Queued(groups: seq<seq<RelPath>>, score: RelPath -> real): nat
    decreases |groups|
  {
    if groups == [] then 0
    else
      var g := groups[|groups| - 1];
      Queued(groups[..|groups| - 1], score) + |Others(g, KeeperOf(g, score))|
  }

  /** When every `mkdir` and every `shutil.move` succeeds and the cache is in
      step with the disk, `moved_count` is the number of files queued: every
      member of every group but its keeper. */
  lemma {:induction false} MovedGroupsCounted(rows: map<RelPath, Row>, listing: map<RelPath, set<string>>,
                                              groups: seq<seq<RelPath>>, score: RelPath -> real, env: MoveEnv)
    requires AllGroupsNamed(groups) && CacheOnDisk(rows, listing)
    requires forall d :: env.mkdirOk(d)
    requires forall p :: env.moveOk(p)
    ensures MovedGroups(rows, listing, groups, score, env).moved == Queued(groups, score)
    ensures !MovedGroups(rows, listing, groups, score, env).aborted
    ensures CacheOnDisk(MovedGroups(rows, listing, groups, score, env).rows, MovedGroups(rows, listing, groups, score, env).listing)
    decreases |groups|
  {
    if groups != [] {
      var front := groups[..|groups| - 1];
      assert forall k :: 0 <= k < |front| ==> front[k] == groups[k];
      MovedGroupsCounted(rows, listing, front, score, env);
      var g := groups[|groups| - 1];
      MovedAllCounted(MovedGroups(rows, listing, front, score, env), Others(g, KeeperOf(g, score)), env);
    }
  }

  /** The number of files in the groups. */
  function Members(groups: seq<seq<RelPath>>): nat
    decreases |groups|
  {
    if groups == [] then 0 else Members(groups[..|groups| - 1]) + |groups[|groups| - 1]|
  }

  /** When every score beats the initial -1, as a variance or the 0.0 of the
      handler does, each group keeps one file, so at most all but one file
      per group are moved. */
  lemma {:induction false} OneKeptPerGroup(rows: map<RelPath, Row>, listing: map<RelPath, set<string>>,
                                           groups: seq<seq<RelPath>>, score: RelPath -> real, env: MoveEnv)
    requires AllGroupsNamed(groups)
    requires forall k :: 0 <= k < |groups| ==> |groups[k]| > 0
    requires forall p :: score(p) > -1.0
    ensures MovedGroups(rows, listing, groups, score, env).moved + |groups| <= Members(groups)
    decreases |groups|
  {
    if groups != [] {
      var front := groups[..|groups| - 1];
      assert forall k :: 0 <= k < |front| ==> front[k] == groups[k];
      OneKeptPerGroup(rows, listing, front, score, env);
      var g := groups[|groups| - 1];
      var k := KeeperIndex(g, score);
      assert k.Some? by {
        assert score(g[0]) > -1.0;
      }
      OthersSize(g, KeeperOf(g, score));
    }
  }

  /** Lines 113-151: a keeper is selected for each group, then the others are
      moved; once a `mkdir` has raised, no later group is scored or moved. */
  method ProcessGroups(store: CacheStore, disk: Disk, groups: seq<seq<RelPath>>, score: RelPath -> real, env: MoveEnv)
    returns (moved: nat, aborted: bool)
    requires AllGroupsNamed(groups)
    modifies store, disk
    ensures Effects(moved, store.rows, disk.listing, aborted)
            == MovedGroups(old(store.rows), old(disk.listing), groups, score, env)
  {
    moved, aborted := 0, false;
    for i := 0 to |groups|
      invariant AllGroupsNamed(groups[..i])
      invariant Effects(moved, store.rows, disk.listing, aborted)
                == MovedGroups(old(store.rows), old(disk.listing), groups[..i], score, env)
    {
      assert groups[..i + 1][..i] == groups[..i];
      assert AllGroupsNamed(groups[..i + 1]) by {
        assert forall k :: 0 <= k < i + 1 ==> groups[..i + 1][k] == groups[k];
      }
      if !aborted {
        var best := SelectKeeper(groups[i], score);
        moved, aborted := MoveGroup(store, disk, groups[i], best, env, moved, aborted);
      }
    }
    assert groups[..|groups|] == groups;
  }
}
