/** The blur detector: each image is read with the first reader that
    succeeds, scored as a whole or tile by tile, and classified; the main
    loop then moves the blurry ones into a `blurry` folder. The sharpness
    scores of the (downscaled) image are opaque: they are given as functions
    of the image read, which fail with the message of the exception raised
    while computing them. */
module BlurDetector {
  import opened Common
  import opened Paths
  import opened ImageProcessing
  import opened SafeMove
  import opened Sharpness

  /** `BLURRY_DIR_NAME`. */
  const BlurryDirName := "blurry"
  const PartiallyBlurry := "partially_blurry"
  const MostlyBlurry := "mostly_blurry"
  const CompletelyBlurry := "completely_blurry"

  /** The `(status, sub_dir)` part of a worker result; `Error` carries `str(e)`. */
  datatype Status = Fail | Blurry | BlurryPartial(tier: string) | Clear | Error(message: string)

  datatype BlurResult = BlurResult(relpath: RelPath, status: Status)

  /** The read cascade of the blur worker: unlike the duplicate scan's worker
      it asks rawpy and imageio whatever the suffix, each of them yielding
      nothing when its package is missing. */
  function BlurRead<Img>(rd: Readers<Img>): (r: Option<Img>)
    ensures r.None? <==> rd.opencv.None? && rd.pillow.None? && RawpyRead(rd).None? && ImageioRead(rd).None?
    ensures rd.opencv.Some? ==> r == rd.opencv
    ensures rd.opencv.None? && rd.pillow.Some? ==> r == rd.pillow
    ensures rd.opencv.None? && rd.pillow.None? && RawpyRead(rd).Some? ==> r == RawpyRead(rd)
  {
    var img := rd.opencv;
    var img := if img.None? then rd.pillow else img;
    var img := if img.None? then RawpyRead(rd) else img;
    if img.None? then ImageioRead(rd) else img
  }

  /** For a ".cr2" file the blur worker reads the same image as the duplicate
      scan's worker; for other files it may also fall back to rawpy. */
  lemma BlurReadMatchesWorker<Img>(rd: Readers<Img>, ext: string)
    requires ext == ".cr2" || !rd.rawpyLoaded || rd.rawpy.None?
    ensures BlurRead(rd) == match FirstSuccess(Attempts(rd, ext))
                              case None => None
                              case Some(read) => Some(read.0)
  {
    CascadeFails(rd, ext);
    CascadeReads(rd, ext);
  }

  /** Both scores below their thresholds: blurry by both metrics. */
  predicate BelowBoth(score: (real, real), lapThresh: real, tenThresh: real)
  {
    score.0 < lapThresh && score.1 < tenThresh
  }

  /** `sum(1 for lap, ten in scores if lap < lap_thresh and ten < ten_thresh)`. */
  function BlurryTiles(tiles: seq<(real, real)>, lapThresh: real, tenThresh: real): (r: nat)
    ensures r <= |tiles|
    decreases |tiles|
  {
    if tiles == [] then 0
    else BlurryTiles(tiles[..|tiles| - 1], lapThresh, tenThresh)
         + (if BelowBoth(tiles[|tiles| - 1], lapThresh, tenThresh) then 1 else 0)
  }

  /** The count is the whole grid exactly when every tile is blurry, and zero
      exactly when none is. */
  lemma {:induction false} BlurryTilesExtremes(tiles: seq<(real, real)>, lapThresh: real, tenThresh: real)
    ensures BlurryTiles(tiles, lapThresh, tenThresh) == |tiles|
            <==> forall k :: 0 <= k < |tiles| ==> BelowBoth(tiles[k], lapThresh, tenThresh)
    ensures BlurryTiles(tiles, lapThresh, tenThresh) == 0
            <==> forall k :: 0 <= k < |tiles| ==> !BelowBoth(tiles[k], lapThresh, tenThresh)
    decreases |tiles|
  {
    if tiles != [] {
      var front := tiles[..|tiles| - 1];
      BlurryTilesExtremes(front, lapThresh, tenThresh);
      assert forall k :: 0 <= k < |front| ==> front[k] == tiles[k];
    }
  }

  /** Raising a tile's scores never adds a blurry tile: the count is
      antitone in the scores. */
  lemma {:induction false} BlurryTilesAntitone(a: seq<(real, real)>, b: seq<(real, real)>, lapThresh: real, tenThresh: real)
    requires |a| == |b|
    requires forall k :: 0 <= k < |a| ==> a[k].0 <= b[k].0 && a[k].1 <= b[k].1
    ensures BlurryTiles(b, lapThresh, tenThresh) <= BlurryTiles(a, lapThresh, tenThresh)
    decreases |a|
  {
    if a != [] {
      BlurryTilesAntitone(a[..|a| - 1], b[..|b| - 1], lapThresh, tenThresh);
    }
  }

  /** The `sub_dir` for a count of blurry tiles, nothing below three. */
  function Tier(count: nat): (r: Option<string>)
    ensures r.None? <==> count < 3
    ensures r == Some(PartiallyBlurry) <==> 3 <= count < 6
    ensures r == Some(MostlyBlurry) <==> 6 <= count < 9
    ensures r == Some(CompletelyBlurry) <==> count >= 9
  {
    if count < 3 then None
    else if count < 6 then Some(PartiallyBlurry)
    else if count < 9 then Some(MostlyBlurry)
    else Some(CompletelyBlurry)
  }

  /** How severe a tier is: no tier, partial, mostly, complete. */
  function Severity(tier: Option<string>): nat
  {
    match tier
    case None => 0
    case Some(t) => if t == PartiallyBlurry then 1 else if t == MostlyBlurry then 2 else 3
  }

  /** More blurry tiles never give a milder tier, and every count from three
      blurry tiles up gives one of the three tiers. */
  lemma TierMonotone(c1: nat, c2: nat)
    requires c1 <= c2
    ensures Severity(Tier(c1)) <= Severity(Tier(c2))
    ensures Tier(c2).Some? ==> Tier(c2).value in {PartiallyBlurry, MostlyBlurry, CompletelyBlurry}
  {
  }

  /** On the 3x3 grid, an image is completely blurry exactly when all of its
      tiles are. */
  lemma CompletelyIffAllTiles(tiles: seq<(real, real)>, lapThresh: real, tenThresh: real)
    requires |tiles| == GridSize * GridSize
    ensures Tier(BlurryTiles(tiles, lapThresh, tenThresh)) == Some(CompletelyBlurry)
            <==> forall k :: 0 <= k < |tiles| ==> BelowBoth(tiles[k], lapThresh, tenThresh)
  {
    BlurryTilesExtremes(tiles, lapThresh, tenThresh);
  }

  /** `process_file_for_blurry_detection`. `whole` is `sharpness_score` of the
      downscaled image and `grid` is `grid_sharpness_scores` of it; either
      fails with the message of the exception it raised. */
  function ClassifyBlur<Img>(rd: Readers<Img>, lapThresh: real, tenThresh: real, splitImage: bool,
                             whole: Img -> Result<(real, real)>, grid: Img -> Result<seq<(real, real)>>): (r: Status)
    ensures r.Blurry? ==> !splitImage
    ensures r.BlurryPartial? ==> splitImage && r.tier in {PartiallyBlurry, MostlyBlurry, CompletelyBlurry}
  {
    match BlurRead(rd)
    case None => Fail
    case Some(img) =>
      if !splitImage then
        match whole(img)
        case Failure(e) => Error(e)
        case Success(score) => if BelowBoth(score, lapThresh, tenThresh) then Blurry else Clear
      else
        match grid(img)
        case Failure(e) => Error(e)
        case Success(tiles) =>
          var n := BlurryTiles(tiles, lapThresh, tenThresh);
          if n >= 3 then BlurryPartial(Tier(n).value) else Clear
  }

  /** The outcome is "fail" exactly when all four readers fail, and "error",
      with the exception's message, exactly when the image was read but
      scoring it raised. */
  lemma ClassifyFailOrError<Img>(rd: Readers<Img>, lapThresh: real, tenThresh: real, splitImage: bool,
                                 whole: Img -> Result<(real, real)>, grid: Img -> Result<seq<(real, real)>>)
    ensures var st := ClassifyBlur(rd, lapThresh, tenThresh, splitImage, whole, grid);
            && (st == Fail <==> rd.opencv.None? && rd.pillow.None? && RawpyRead(rd).None? && ImageioRead(rd).None?)
            && (st.Error? <==>
                  (BlurRead(rd).Some? &&
                   if splitImage then grid(BlurRead(rd).value).Failure? else whole(BlurRead(rd).value).Failure?))
            && (st.Error? && splitImage ==> st.message == grid(BlurRead(rd).value).error)
            && (st.Error? && !splitImage ==> st.message == whole(BlurRead(rd).value).error)
  {
  }

  /** Whole-image mode: an image that was read and scored is "blurry" exactly
      when both scores are below their thresholds and "clear" otherwise, so an
      image sharp by either metric is kept; no tier is ever reported. */
  lemma ClassifyWhole<Img>(rd: Readers<Img>, lapThresh: real, tenThresh: real,
                           whole: Img -> Result<(real, real)>, grid: Img -> Result<seq<(real, real)>>)
    requires BlurRead(rd).Some? && whole(BlurRead(rd).value).Success?
    ensures var st := ClassifyBlur(rd, lapThresh, tenThresh, false, whole, grid);
            var score := whole(BlurRead(rd).value).value;
            && (st == Blurry <==> score.0 < lapThresh && score.1 < tenThresh)
            && (st == Clear <==> score.0 >= lapThresh || score.1 >= tenThresh)
  {
  }

  /** Tiled mode: an image that was read and scored is "blurry_partial" with
      the tier of its count of blurry tiles when that count is at least three
      and "clear" otherwise; it is never "blurry". */
  lemma ClassifyTiled<Img>(rd: Readers<Img>, lapThresh: real, tenThresh: real,
                           whole: Img -> Result<(real, real)>, grid: Img -> Result<seq<(real, real)>>)
    requires BlurRead(rd).Some? && grid(BlurRead(rd).value).Success?
    ensures var st := ClassifyBlur(rd, lapThresh, tenThresh, true, whole, grid);
            var n := BlurryTiles(grid(BlurRead(rd).value).value, lapThresh, tenThresh);
            && st != Blurry
            && (st.BlurryPartial? <==> n >= 3)
            && (st.BlurryPartial? ==> Some(st.tier) == Tier(n))
            && (st == Clear <==> n < 3)
            && (|grid(BlurRead(rd).value).value| == GridSize * GridSize ==>
                  (st == BlurryPartial(CompletelyBlurry) <==>
                   forall k :: 0 <= k < GridSize * GridSize ==> BelowBoth(grid(BlurRead(rd).value).value[k], lapThresh, tenThresh)))
  {
    var tiles := grid(BlurRead(rd).value).value;
    if |tiles| == GridSize * GridSize {
      CompletelyIffAllTiles(tiles, lapThresh, tenThresh);
    }
  }

  /** The folder a result is moved into, nothing for a result that stays. */
  function Destination(st: Status): (r: Option<RelPath>)
    ensures r.Some? <==> st.Blurry? || st.BlurryPartial?
    ensures st.Blurry? ==> r == Some([BlurryDirName])
    ensures st.BlurryPartial? ==> r == Some([BlurryDirName, st.tier])
  {
    match st
    case Blurry => Some([BlurryDirName])
    case BlurryPartial(tier) => Some([BlurryDirName, tier])
    case _ => None
  }

  /** The moved count and the folders so far, and whether an exception has
      ended the loop. */
  datatype Dispatch = Dispatch(moved: nat, listing: map<RelPath, set<string>>, aborted: bool)

  /** One result of the main loop, where the move is a collision-free one into
      the destination folder and `moveOk` says whether it succeeds; a move that
      raises ends the loop. */
  function DispatchOne(st: Dispatch, res: BlurResult, moveOk: RelPath -> bool): (r: Dispatch)
    requires |res.relpath| > 0
    ensures st.aborted ==> r == st
    ensures r.moved <= st.moved + 1
    ensures r.aborted && !st.aborted ==> Destination(res.status).Some? && !moveOk(res.relpath)
  {
    if st.aborted then st
    else match Destination(res.status)
      case None => st
      case Some(dst) =>
        if !moveOk(res.relpath) then Dispatch(st.moved, st.listing, true)
        else
          var name := Candidate(Name(res.relpath), FreeIndex(Name(res.relpath), NamesIn(st.listing, dst)));
          Dispatch(st.moved + 1, AfterMove(st.listing, res.relpath, dst, name), false)
  }

  predicate AllHavePaths(results: seq<BlurResult>)
  {
    forall k :: 0 <= k < |results| ==> |results[k].relpath| > 0
  }

  /** The main loop over the results, in order. */
  function Dispatched(listing: map<RelPath, set<string>>, results: seq<BlurResult>, moveOk: RelPath -> bool): (r: Dispatch)
    requires AllHavePaths(results)
    ensures r.moved <= |results|
    decreases |results|
  {
    if results == [] then Dispatch(0, listing, false)
    else DispatchOne(Dispatched(listing, results[..|results| - 1], moveOk), results[|results| - 1], moveOk)
  }

  /** How many results ask to be moved. */
  function Movable(results: seq<BlurResult>): (r: nat)
    ensures r <= |results|
    decreases |results|
  {
    if results == [] then 0
    else Movable(results[..|results| - 1]) + (if Destination(results[|results| - 1].status).Some? then 1 else 0)
  }

  /** When every move succeeds, `moved_count` is the number of "blurry" and
      "blurry_partial" results; results of any other status move nothing. */
  lemma {:induction false} DispatchedCountsBlurry(listing: map<RelPath, set<string>>, results: seq<BlurResult>,
                                                  moveOk: RelPath -> bool)
    requires AllHavePaths(results)
    requires forall k :: 0 <= k < |results| ==> moveOk(results[k].relpath)
    ensures !Dispatched(listing, results, moveOk).aborted
    ensures Dispatched(listing, results, moveOk).moved == Movable(results)
    ensures Movable(results) == 0 ==> Dispatched(listing, results, moveOk).listing == listing
    decreases |results|
  {
    if results != [] {
      var front := results[..|results| - 1];
      assert forall k :: 0 <= k < |front| ==> front[k] == results[k];
      DispatchedCountsBlurry(listing, front, moveOk);
    }
  }

  /** Each file moved lands in its destination folder under a name that was
      free there, and every other folder but its own keeps its listing. */
  lemma DispatchOneMoves(st: Dispatch, res: BlurResult, moveOk: RelPath -> bool)
    requires |res.relpath| > 0
    ensures var st' := DispatchOne(st, res, moveOk);
            && (st'.moved == st.moved + 1 <==> !st.aborted && Destination(res.status).Some? && moveOk(res.relpath))
            && (st'.moved != st.moved + 1 ==> st'.listing == st.listing && st'.moved == st.moved)
            && (st'.moved == st.moved + 1 ==>
                  var dst := Destination(res.status).value;
                  exists name :: name !in NamesIn(st.listing, dst) && name in NamesIn(st'.listing, dst)
                                 && (name == Name(res.relpath) || |name| > |Name(res.relpath)|))
            && (st'.moved == st.moved + 1 ==>
                  var dst := Destination(res.status).value;
                  && (forall d :: d != dst && d != Parent(res.relpath) ==> NamesIn(st'.listing, d) == NamesIn(st.listing, d))
                  && (Parent(res.relpath) != dst ==> Name(res.relpath) !in NamesIn(st'.listing, Parent(res.relpath))))
  {
    if !st.aborted && Destination(res.status).Some? && moveOk(res.relpath) {
      var dst := Destination(res.status).value;
      var k := FreeIndex(Name(res.relpath), NamesIn(st.listing, dst));
      if k != 0 {
        CandidateLonger(Name(res.relpath), k);
      }
    }
  }

  /** The loop's first `i + 1` results: those before, then result `i`. */
  lemma DispatchedSnoc(listing: map<RelPath, set<string>>, results: seq<BlurResult>, i: nat, moveOk: RelPath -> bool)
    requires AllHavePaths(results) && i < |results|
    ensures AllHavePaths(results[..i]) && AllHavePaths(results[..i + 1])
    ensures Dispatched(listing, results[..i + 1], moveOk)
            == DispatchOne(Dispatched(listing, results[..i], moveOk), results[i], moveOk)
  {
    assert results[..i + 1][..i] == results[..i];
    assert forall k :: 0 <= k < i + 1 ==> results[..i + 1][k] == results[k];
  }

  /** The same loop: the file path is `workdir / relpath` and the move goes
      through the collision-free naming of `safe_move_and_update`. */
  method DispatchResults(disk: Disk, results: seq<BlurResult>, moveOk: RelPath -> bool)
    returns (moved: nat, aborted: bool)
    requires AllHavePaths(results)
    modifies disk
    ensures Dispatch(moved, disk.listing, aborted) == Dispatched(old(disk.listing), results, moveOk)
  {
    moved, aborted := 0, false;
    ghost var listing0 := disk.listing;
    var i := 0;
    while i < |results|
      invariant 0 <= i <= |results| && AllHavePaths(results[..i])
      invariant Dispatch(moved, disk.listing, aborted) == Dispatched(listing0, results[..i], moveOk)
    {
      DispatchedSnoc(listing0, results, i, moveOk);
      moved, aborted := DispatchResult(disk, moved, aborted, results[i], moveOk);
      i := i + 1;
    }
    assert results[..|results|] == results;
  }

  /** The body of the loop for one result. */
  method DispatchResult(disk: Disk, moved: nat, aborted: bool, res: BlurResult, moveOk: RelPath -> bool)
    returns (moved': nat, aborted': bool)
    requires |res.relpath| > 0
    modifies disk
    ensures Dispatch(moved', disk.listing, aborted') == DispatchOne(Dispatch(moved, old(disk.listing), aborted), res, moveOk)
  {
    moved', aborted' := moved, aborted;
    var dst := Destination(res.status);
    if !aborted && dst.Some? {
      if !moveOk(res.relpath) {
        aborted' := true;
      } else {
        var name, k := ChooseName(Name(res.relpath), NamesIn(disk.listing, dst.value));
        disk.listing := AfterMove(disk.listing, res.relpath, dst.value, name);
        moved' := moved + 1;
      }
    }
  }

  /** The loop as written: it calls `safe_move`, a name that is neither
      defined nor imported, so the first "blurry" or "blurry_partial" result
      raises `NameError` before anything is moved or counted. */
  function DispatchedAsWritten(listing: map<RelPath, set<string>>, results: seq<BlurResult>): (r: Dispatch)
    ensures r.moved <= |results|
    decreases |results|
  {
    if results == [] then Dispatch(0, listing, false)
    else
      var st := DispatchedAsWritten(listing, results[..|results| - 1]);
      if !st.aborted && Destination(results[|results| - 1].status).Some? then Dispatch(st.moved, st.listing, true)
      else st
  }

  /** As written, nothing is ever moved or counted, and the run ends with an
      exception exactly when some image was found blurry; with the move the
      loop evidently intends, every blurry image is moved and counted. */
  lemma {:induction false} AsWrittenMovesNothing(listing: map<RelPath, set<string>>, results: seq<BlurResult>)
    ensures DispatchedAsWritten(listing, results).moved == 0
    ensures DispatchedAsWritten(listing, results).listing == listing
    ensures DispatchedAsWritten(listing, results).aborted <==> Movable(results) > 0
    decreases |results|
  {
    if results != [] {
      AsWrittenMovesNothing(listing, results[..|results| - 1]);
    }
  }

  /** A single blurry image shows the difference: as written the run stops
      with nothing moved, the intended loop moves it. */
  lemma OneBlurryImage(listing: map<RelPath, set<string>>, rel: RelPath)
    requires |rel| > 0
    ensures DispatchedAsWritten(listing, [BlurResult(rel, Blurry)]).moved == 0
    ensures DispatchedAsWritten(listing, [BlurResult(rel, Blurry)]).aborted
    ensures Dispatched(listing, [BlurResult(rel, Blurry)], r => true).moved == 1
  {
    assert [BlurResult(rel, Blurry)][..0] == [];
  }
}
