/** Moving a file into a folder without overwriting anything there: the file
    keeps its name when that is free, and otherwise becomes `stem_k` plus its
    suffix for the smallest free k >= 1; then its cache row follows it. */
module SafeMove {
  import opened Common
  import opened Paths
  import opened Cache

  /** The k-th name tried for a file called `name`: the name itself first, then
      `f"{stem}_{k}{suffix}"` for k = 1, 2, ... */
  function Candidate(name: string, k: nat): string
  {
    if k == 0 then name else Stem(name) + "_" + Decimal(k) + Suffix(name)
  }

  /** Only the name itself is tried at k = 0: every later candidate is longer. */
  lemma CandidateLonger(name: string, k: nat)
    requires k != 0
    ensures |Candidate(name, k)| > |name|
  {
    StemSuffixSplit(name);
  }

  /** Different k give different names, so the loop below never retries a name. */
  lemma CandidateInjective(name: string, j: nat, k: nat)
    requires Candidate(name, j) == Candidate(name, k)
    ensures j == k
  {
    if j != 0 && k != 0 {
      var stem, suf := Stem(name), Suffix(name);
      var cj, ck := Candidate(name, j), Candidate(name, k);
      assert |Decimal(j)| == |Decimal(k)| by {
        assert |cj| == |stem| + 1 + |Decimal(j)| + |suf|;
        assert |ck| == |stem| + 1 + |Decimal(k)| + |suf|;
      }
      var lo, hi := |stem| + 1, |stem| + 1 + |Decimal(j)|;
      assert cj[lo..hi] == Decimal(j);
      assert ck[lo..hi] == Decimal(k);
      DecimalInjective(j, k);
    } else if j != 0 {
      CandidateLonger(name, j);
    } else if k != 0 {
      CandidateLonger(name, k);
    }
  }

  /** The first `n` candidates. */
  ghost function FirstCandidates(name: string, n: nat): set<string>
    decreases n
  {
    if n == 0 then {} else FirstCandidates(name, n - 1) + {Candidate(name, n - 1)}
  }

  lemma {:induction false} FirstCandidatesSize(name: string, n: nat)
    ensures |FirstCandidates(name, n)| == n
    ensures forall s :: s in FirstCandidates(name, n) ==> exists j :: 0 <= j < n && s == Candidate(name, j)
    decreases n
  {
    if n > 0 {
      FirstCandidatesSize(name, n - 1);
      if Candidate(name, n - 1) in FirstCandidates(name, n - 1) {
        var j :| 0 <= j < n - 1 && Candidate(name, n - 1) == Candidate(name, j);
        CandidateInjective(name, j, n - 1);
      }
    }
  }

  /** A folder holding the first `n` candidates holds at least `n` names, so
      the search stops after at most `|existing|` retries. */
  lemma CandidatesBound(name: string, existing: set<string>, n: nat)
    requires forall j :: 0 <= j < n ==> Candidate(name, j) in existing
    ensures n <= |existing|
  {
    FirstCandidatesSize(name, n);
    SubsetSize(FirstCandidates(name, n), existing);
  }

  /** The destination-name loop of `safe_move_and_update` against the set of
      names already present in the destination folder. It returns the name and
      the k it was found at. */
  method ChooseName(name: string, existing: set<string>) returns (r: string, k: nat)
    ensures r == Candidate(name, k) && r !in existing
    ensures forall j :: 0 <= j < k ==> Candidate(name, j) in existing
    ensures k == FreeIndex(name, existing)
  {
    r := name;
    var counter := 1;
    while r in existing
      invariant counter >= 1
      invariant r == Candidate(name, counter - 1)
      invariant forall j :: 0 <= j < counter - 1 ==> Candidate(name, j) in existing
      decreases |existing| - counter
    {
      CandidatesBound(name, existing, counter);
      r := Stem(name) + "_" + Decimal(counter) + Suffix(name);
      counter := counter + 1;
    }
    k := counter - 1;
    FreeUnique(name, existing, k, FreeIndex(name, existing));
  }

  /** The first free candidate at or after `k`, given that those before `k` are taken. */
  function FreeFrom(name: string, existing: set<string>, k: nat): (r: nat)
    requires forall j :: 0 <= j < k ==> Candidate(name, j) in existing
    ensures r >= k && Candidate(name, r) !in existing
    ensures forall j :: 0 <= j < r ==> Candidate(name, j) in existing
    decreases |existing| - k
  {
    if Candidate(name, k) !in existing then k
    else
      CandidatesBound(name, existing, k + 1);
      FreeFrom(name, existing, k + 1)
  }

  /** The k of the name `safe_move_and_update` picks in a folder holding `existing`. */
  function FreeIndex(name: string, existing: set<string>): nat
  {
    FreeFrom(name, existing, 0)
  }

  /** There is only one first free candidate. */
  lemma FreeUnique(name: string, existing: set<string>, k1: nat, k2: nat)
    requires Candidate(name, k1) !in existing && forall j :: 0 <= j < k1 ==> Candidate(name, j) in existing
    requires Candidate(name, k2) !in existing && forall j :: 0 <= j < k2 ==> Candidate(name, j) in existing
    ensures k1 == k2
  {
  }

  lemma {:induction false} SubsetSize<T>(a: set<T>, b: set<T>)
    requires a <= b
    ensures |a| <= |b|
    decreases |a|
  {
    if a != {} {
      var x :| x in a;
      SubsetSize(a - {x}, b - {x});
    }
  }

  /** The name chosen is the file's own name exactly when that is free;
      otherwise it is the first free `stem_k` name. */
  lemma ChosenName(name: string, existing: set<string>, r: string, k: nat)
    requires r == Candidate(name, k) && r !in existing
    requires forall j :: 0 <= j < k ==> Candidate(name, j) in existing
    ensures k == 0 <==> name !in existing
    ensures name in existing ==> k >= 1 && r == Stem(name) + "_" + Decimal(k) + Suffix(name)
    ensures forall j :: 1 <= j < k ==> Stem(name) + "_" + Decimal(j) + Suffix(name) in existing
  {
    if k != 0 {
      assert Candidate(name, 0) in existing;
    }
    forall j | 1 <= j < k ensures Stem(name) + "_" + Decimal(j) + Suffix(name) in existing {
      assert Candidate(name, j) in existing;
    }
  }

  /** The names present in each folder, keyed by the folder's path below the
      working directory; a folder missing from the map does not exist, and
      `NamesIn` reads it as empty. */
  class Disk {
    var listing: map<RelPath, set<string>>

    constructor (listing0: map<RelPath, set<string>>)
      ensures listing == listing0
    {
      listing := listing0;
    }
  }

  function NamesIn(listing: map<RelPath, set<string>>, dir: RelPath): set<string>
  {
    if dir in listing then listing[dir] else {}
  }

  /** The listing after `shutil.move` of `src` into `dstDir` under the name `name`. */
  function AfterMove(listing: map<RelPath, set<string>>, src: RelPath, dstDir: RelPath, name: string)
    : map<RelPath, set<string>>
    requires |src| > 0
  {
    var l := listing[Parent(src) := NamesIn(listing, Parent(src)) - {Name(src)}];
    l[dstDir := NamesIn(l, dstDir) + {name}]
  }

  /** What one call of `safe_move_and_update` leaves: its return value or the
      exception it raises, the cache table and the folder listing. */
  datatype Moved = Moved(result: Result<RelPath>, rows: map<RelPath, Row>, listing: map<RelPath, set<string>>)

  /** `safe_move_and_update(src, dstDir)` on the table `rows` and the folders
      `listing`, where `moveOk` says whether `shutil.move` succeeds and
      `stat` gives the `(size, mtime)` of a file after the move. A failed move
      changes nothing; a cache update that fails leaves the file moved. */
  function SafeMoved(rows: map<RelPath, Row>, listing: map<RelPath, set<string>>, src: RelPath, dstDir: RelPath,
                     moveOk: bool, stat: RelPath -> (nat, real)): (r: Moved)
    requires |src| > 0
    ensures r.result.Success? ==> moveOk
    ensures !moveOk ==> r.rows == rows && r.listing == listing
  {
    var name := Candidate(Name(src), FreeIndex(Name(src), NamesIn(listing, dstDir)));
    if !moveOk then Moved(Failure("move failed"), rows, listing)
    else
      var listing' := AfterMove(listing, src, dstDir, name);
      var newRel := dstDir + [name];
      var u := Renamed(rows, src, newRel, stat(newRel).0, stat(newRel).1);
      if u.Success? then Moved(Success(newRel), u.value, listing')
      else Moved(Failure(u.error), rows, listing')
  }

  /** A failed move changes nothing. A successful one never overwrites: the
      file's new name was not in the destination folder, it is there now, and
      no folder other than the source's and the destination's changes. The
      cache row, when there is one, follows the file with its hash and read
      method; when the cache update fails the table is unchanged. */
  lemma SafeMovedSpec(rows: map<RelPath, Row>, listing: map<RelPath, set<string>>, src: RelPath, dstDir: RelPath,
                      moveOk: bool, stat: RelPath -> (nat, real))
    requires |src| > 0
    ensures var r := SafeMoved(rows, listing, src, dstDir, moveOk, stat);
            && (!moveOk ==> r.result.Failure? && r.rows == rows && r.listing == listing)
            && (moveOk ==> forall dir :: dir != dstDir && dir != Parent(src) ==> NamesIn(r.listing, dir) == NamesIn(listing, dir))
            && (moveOk && Parent(src) != dstDir ==> NamesIn(r.listing, Parent(src)) == NamesIn(listing, Parent(src)) - {Name(src)})
            && (r.result.Failure? ==> r.rows == rows)
            && (r.result.Success? ==>
                  && |r.result.value| > 0 && Parent(r.result.value) == dstDir
                  && Name(r.result.value) !in NamesIn(listing, dstDir)
                  && Name(r.result.value) in NamesIn(r.listing, dstDir))
            && (r.result.Success? && src in rows ==>
                  && r.result.value in r.rows
                  && r.rows[r.result.value].hash == rows[src].hash
                  && r.rows[r.result.value].readMethod == rows[src].readMethod
                  && (r.result.value != src ==> src !in r.rows))
  {
    if moveOk {
      var name := Candidate(Name(src), FreeIndex(Name(src), NamesIn(listing, dstDir)));
      var newRel := dstDir + [name];
      assert Parent(newRel) == dstDir && Name(newRel) == name;
    }
  }

  /** Every row of the cache names a file that is on disk, as the rows the
      scan itself writes do. */
  ghost predicate CacheOnDisk(rows: map<RelPath, Row>, listing: map<RelPath, set<string>>)
  {
    forall p :: p in rows ==> |p| > 0 && Name(p) in NamesIn(listing, Parent(p))
  }

  /** With the cache in step with the disk, a move that `shutil.move` carries
      out also updates the cache: the name it picks is free on disk, so no row
      holds it. Afterwards the cache is still in step with the disk. */
  lemma SafeMovedInStep(rows: map<RelPath, Row>, listing: map<RelPath, set<string>>, src: RelPath, dstDir: RelPath,
                        stat: RelPath -> (nat, real))
    requires |src| > 0 && CacheOnDisk(rows, listing)
    ensures SafeMoved(rows, listing, src, dstDir, true, stat).result.Success?
    ensures CacheOnDisk(SafeMoved(rows, listing, src, dstDir, true, stat).rows,
                        SafeMoved(rows, listing, src, dstDir, true, stat).listing)
  {
    var name := Candidate(Name(src), FreeIndex(Name(src), NamesIn(listing, dstDir)));
    var newRel := dstDir + [name];
    assert Parent(newRel) == dstDir && Name(newRel) == name;
    assert newRel !in rows;
    RenamedInStep(rows, listing, src, newRel, stat(newRel).0, stat(newRel).1);
  }

  /** Re-keying the row of `src` to a path whose name was free in its folder
      keeps the cache in step with the disk after the file is moved there. */
  lemma RenamedInStep(rows: map<RelPath, Row>, listing: map<RelPath, set<string>>, src: RelPath, newRel: RelPath,
                      size: nat, mtime: real)
    requires |src| > 0 && |newRel| > 0 && CacheOnDisk(rows, listing) && newRel !in rows
    ensures Renamed(rows, src, newRel, size, mtime).Success?
    ensures CacheOnDisk(Renamed(rows, src, newRel, size, mtime).value,
                        AfterMove(listing, src, Parent(newRel), Name(newRel)))
  {
    var rows' := Renamed(rows, src, newRel, size, mtime).value;
    var l' := AfterMove(listing, src, Parent(newRel), Name(newRel));
    forall p | p in rows' ensures |p| > 0 && Name(p) in NamesIn(l', Parent(p)) {
      if p != newRel {
        assert p in rows && p != src;
        assert p == Parent(p) + [Name(p)] && src == Parent(src) + [Name(src)];
      }
    }
  }

  /** `safe_move_and_update`: the name is picked by the loop above in the
      destination folder's current listing. */
  method SafeMoveAndUpdate(store: CacheStore, disk: Disk, src: RelPath, dstDir: RelPath,
                           moveOk: bool, stat: RelPath -> (nat, real))
    returns (r: Result<RelPath>)
    requires |src| > 0
    modifies store, disk
    ensures Moved(r, store.rows, disk.listing)
            == SafeMoved(old(store.rows), old(disk.listing), src, dstDir, moveOk, stat)
  {
    var name, k := ChooseName(Name(src), NamesIn(disk.listing, dstDir));
    if !moveOk {
      return Failure("move failed");
    }
    disk.listing := AfterMove(disk.listing, src, dstDir, name);
    var newRel := dstDir + [name];
    var (newSize, newMtime) := stat(newRel);
    var u := store.UpdateFilepath(src, newRel, newSize, newMtime);
    if u.Failure? {
      return Failure(u.error);
    }
    return Success(newRel);
  }
}
