/** Collecting the image files below the working directory: a top-down walk
    of the directory tree that stops descending below a maximum depth and
    inside any directory named like the duplicates folder, and keeps the files
    whose lower-cased suffix is a supported extension. The file system is an
    in-memory tree whose listings come in the order the walk sees them. */
module Gather {
  import opened Paths

  /** A directory: the names of its files and its subdirectories, in listing order. */
  datatype Dir = Dir(files: seq<string>, subdirs: seq<Sub>)
  datatype Sub = Sub(name: string, dir: Dir)

  /** The settings of one walk: the maximum depth, the name of the duplicates
      folder (`DUP_DIR_NAME`) and the supported suffixes (`SUPPORTED_EXTS`). */
  datatype Settings = Settings(maxDepth: int, dupName: string, exts: set<string>)

  predicate Supported(f: string, s: Settings)
  {
    Lower(Suffix(f)) in s.exts
  }

  /** A directory the walk lists: it is not too deep and no component of its
      path (the base path included) is the duplicates folder. */
  predicate Listed(root: seq<string>, depth: int, s: Settings)
  {
    depth <= s.maxDepth && s.dupName !in root
  }

  /** The supported files among `files`, as paths below `root`, in order. */
  function Matching(root: seq<string>, files: seq<string>, s: Settings): seq<seq<string>>
    decreases |files|
  {
    if files == [] then []
    else
      var f := files[|files| - 1];
      Matching(root, files[..|files| - 1], s) + (if Supported(f, s) then [root + [f]] else [])
  }

  /** What the walk gathers below the directory `d` at path `root`, `depth`
      levels below the base: its own matching files, then those of its
      subdirectories in order, except that an unlisted directory contributes
      nothing and is not descended into. */
  function Walk(root: seq<string>, d: Dir, depth: int, s: Settings): seq<seq<string>>
    decreases d, 1
  {
    if !Listed(root, depth, s) then []
    else Matching(root, d.files, s) + WalkSubs(root, d.subdirs, depth + 1, s)
  }

  function WalkSubs(root: seq<string>, subs: seq<Sub>, depth: int, s: Settings): seq<seq<string>>
    decreases subs, 0
  {
    if subs == [] then []
    else Walk(root + [subs[0].name], subs[0].dir, depth, s) + WalkSubs(root, subs[1..], depth, s)
  }

  /** `rel` names a file of `d`: its last component is in the file listing of
      the directory reached by following the other components. */
  ghost predicate HasFile(d: Dir, rel: seq<string>)
    decreases |rel|
  {
    if |rel| == 0 then false
    else if |rel| == 1 then rel[0] in d.files
    else exists i :: 0 <= i < |d.subdirs| && d.subdirs[i].name == rel[0] && HasFile(d.subdirs[i].dir, rel[1..])
  }

  /** Every path the walk gathers lies strictly below the directory walked. */
  lemma {:induction false} WalkBelowRoot(root: seq<string>, d: Dir, depth: int, s: Settings)
    ensures forall k :: 0 <= k < |Walk(root, d, depth, s)| ==>
              |Walk(root, d, depth, s)[k]| > |root| && Walk(root, d, depth, s)[k][..|root|] == root
    decreases d, 1
  {
    if Listed(root, depth, s) {
      MatchingBelowRoot(root, d.files, s);
      WalkSubsBelowRoot(root, d.subdirs, depth + 1, s);
    }
  }

  lemma {:induction false} WalkSubsBelowRoot(root: seq<string>, subs: seq<Sub>, depth: int, s: Settings)
    ensures forall k :: 0 <= k < |WalkSubs(root, subs, depth, s)| ==>
              |WalkSubs(root, subs, depth, s)[k]| > |root| && WalkSubs(root, subs, depth, s)[k][..|root|] == root
    decreases subs, 0
  {
    if subs != [] {
      var child := root + [subs[0].name];
      WalkBelowRoot(child, subs[0].dir, depth, s);
      WalkSubsBelowRoot(root, subs[1..], depth, s);
      forall k | 0 <= k < |Walk(child, subs[0].dir, depth, s)|
        ensures Walk(child, subs[0].dir, depth, s)[k][..|root|] == root
      {
        assert Walk(child, subs[0].dir, depth, s)[k][..|root|] == Walk(child, subs[0].dir, depth, s)[k][..|child|][..|root|];
      }
    }
  }

  lemma {:induction false} MatchingBelowRoot(root: seq<string>, files: seq<string>, s: Settings)
    ensures forall k :: 0 <= k < |Matching(root, files, s)| ==>
              |Matching(root, files, s)[k]| > |root| && Matching(root, files, s)[k][..|root|] == root
    decreases |files|
  {
    if files != [] {
      MatchingBelowRoot(root, files[..|files| - 1], s);
      var f := files[|files| - 1];
      assert (root + [f])[..|root|] == root;
    }
  }

  /** The subdirectories are walked one after another. */
  lemma {:induction false} WalkSubsSnoc(root: seq<string>, subs: seq<Sub>, i: nat, depth: int, s: Settings)
    requires i < |subs|
    ensures WalkSubs(root, subs[..i + 1], depth, s)
            == WalkSubs(root, subs[..i], depth, s) + Walk(root + [subs[i].name], subs[i].dir, depth, s)
    decreases i
  {
    if i == 0 {
      assert subs[..1][1..] == [];
    } else {
      assert subs[..i + 1][1..] == subs[1..][..i];
      assert subs[..i][1..] == subs[1..][..i - 1];
      WalkSubsSnoc(root, subs[1..], i - 1, depth, s);
    }
  }

  /** The loop over one directory's files. */
  method AppendMatching(result: seq<seq<string>>, root: seq<string>, files: seq<string>, s: Settings)
    returns (r: seq<seq<string>>)
    ensures r == result + Matching(root, files, s)
  {
    r := result;
    for k := 0 to |files|
      invariant r == result + Matching(root, files[..k], s)
    {
      assert files[..k + 1][..k] == files[..k];
      if Supported(files[k], s) {
        r := r + [root + [files[k]]];
      }
    }
    assert files[..|files|] == files;
  }

  /** `gather_files_with_depth` from the directory `d` at path `root`,
      `depth` levels below the base, appending what it gathers to `result`.
      Like `os.walk` top-down, a directory's files come before its
      subdirectories; for a directory that is too deep or inside the
      duplicates folder the program clears `dirs`, so the walk stops there. */
  method WalkInto(result: seq<seq<string>>, root: seq<string>, d: Dir, depth: int, s: Settings)
    returns (r: seq<seq<string>>)
    ensures r == result + Walk(root, d, depth, s)
    decreases d, 1
  {
    if !Listed(root, depth, s) {
      return result;
    }
    var own := AppendMatching(result, root, d.files, s);
    r := WalkSubsInto(own, root, d.subdirs, depth + 1, s);
  }

  /** The walk into each subdirectory in listing order. */
  method WalkSubsInto(result: seq<seq<string>>, root: seq<string>, subs: seq<Sub>, depth: int, s: Settings)
    returns (r: seq<seq<string>>)
    ensures r == result + WalkSubs(root, subs, depth, s)
    decreases subs, 0
  {
    r := result;
    assert subs[..0] == [];
    for i := 0 to |subs|
      invariant r == result + WalkSubs(root, subs[..i], depth, s)
    {
      WalkSubsSnoc(root, subs, i, depth, s);
      r := WalkInto(r, root + [subs[i].name], subs[i].dir, depth, s);
    }
    assert subs[..|subs|] == subs;
  }

  /** `gather_files_with_depth(base, max_depth)` over the tree `tree` at path `base`. */
  method GatherFilesWithDepth(base: seq<string>, tree: Dir, s: Settings) returns (result: seq<seq<string>>)
    ensures result == Walk(base, tree, 0, s)
  {
    result := WalkInto([], base, tree, 0, s);
  }

  /** `p` is gathered as the file `rel` of `d`: a supported file in a listed directory. */
  ghost predicate GatheredAs(root: seq<string>, d: Dir, depth: int, s: Settings, p: seq<string>, rel: seq<string>)
  {
    && |rel| > 0 && p == root + rel && HasFile(d, rel)
    && Listed(root + Parent(rel), depth + |rel| - 1, s) && Supported(Name(rel), s)
  }

  lemma GatheredInSub(root: seq<string>, d: Dir, i: nat, depth: int, s: Settings, p: seq<string>, rel: seq<string>)
    requires i < |d.subdirs|
    requires GatheredAs(root + [d.subdirs[i].name], d.subdirs[i].dir, depth + 1, s, p, rel)
    ensures GatheredAs(root, d, depth, s, p, [d.subdirs[i].name] + rel)
  {
    var rel' := [d.subdirs[i].name] + rel;
    assert rel'[1..] == rel;
    assert Parent(rel') == [d.subdirs[i].name] + Parent(rel);
    assert root + rel' == root + [d.subdirs[i].name] + rel;
    assert root + Parent(rel') == root + [d.subdirs[i].name] + Parent(rel);
  }

  /** Everything gathered is a supported file of the tree, in a listed
      directory: not deeper than the maximum depth and with no component of
      its directory's path named like the duplicates folder. */
  lemma {:induction false} WalkSound(root: seq<string>, d: Dir, depth: int, s: Settings, p: seq<string>)
    returns (rel: seq<string>)
    requires p in Walk(root, d, depth, s)
    ensures GatheredAs(root, d, depth, s, p, rel)
    decreases d, 1
  {
    if p in Matching(root, d.files, s) {
      var f := MatchingSound(root, d.files, s, p);
      rel := [f];
      assert Parent(rel) == [] && root + [] == root;
    } else {
      var i, r := WalkSubsSound(root, d.subdirs, depth + 1, s, p);
      GatheredInSub(root, d, i, depth, s, p, r);
      rel := [d.subdirs[i].name] + r;
    }
  }

  lemma {:induction false} WalkSubsSound(root: seq<string>, subs: seq<Sub>, depth: int, s: Settings, p: seq<string>)
    returns (i: nat, rel: seq<string>)
    requires p in WalkSubs(root, subs, depth, s)
    ensures i < |subs| && GatheredAs(root + [subs[i].name], subs[i].dir, depth, s, p, rel)
    decreases subs, 0
  {
    var r0 := root + [subs[0].name];
    if p in Walk(r0, subs[0].dir, depth, s) {
      i := 0;
      rel := WalkSound(r0, subs[0].dir, depth, s, p);
    } else {
      var j;
      j, rel := WalkSubsSound(root, subs[1..], depth, s, p);
      i := j + 1;
    }
  }

  lemma {:induction false} MatchingSound(root: seq<string>, files: seq<string>, s: Settings, p: seq<string>)
    returns (f: string)
    requires p in Matching(root, files, s)
    ensures f in files && Supported(f, s) && p == root + [f]
    decreases |files|
  {
    var last := files[|files| - 1];
    if p in Matching(root, files[..|files| - 1], s) {
      f := MatchingSound(root, files[..|files| - 1], s, p);
    } else {
      f := last;
    }
  }

  /** Every supported file of the tree in a listed directory is gathered; with
      the soundness lemma above, the walk gathers exactly those files. */
  lemma {:induction false} WalkComplete(root: seq<string>, d: Dir, depth: int, s: Settings, rel: seq<string>)
    requires |rel| > 0 && HasFile(d, rel)
    requires Listed(root + Parent(rel), depth + |rel| - 1, s) && Supported(Name(rel), s)
    ensures root + rel in Walk(root, d, depth, s)
    decreases |rel|, 1
  {
    ListedAbove(root, Parent(rel), depth, |rel| - 1, s);
    if |rel| == 1 {
      MatchingComplete(root, d.files, s, rel[0]);
      assert root + rel == root + [rel[0]];
    } else {
      WalkCompleteBelow(root, d, depth, s, rel);
    }
  }

  /** A directory above a listed one is listed too. */
  lemma ListedAbove(root: seq<string>, q: seq<string>, depth: int, k: nat, s: Settings)
    requires Listed(root + q, depth + k, s)
    ensures Listed(root, depth, s)
  {
  }

  /** The case of a file below a subdirectory of `d`. */
  lemma {:induction false} WalkCompleteBelow(root: seq<string>, d: Dir, depth: int, s: Settings, rel: seq<string>)
    requires |rel| > 1 && HasFile(d, rel)
    requires Listed(root + Parent(rel), depth + |rel| - 1, s) && Supported(Name(rel), s)
    ensures root + rel in WalkSubs(root, d.subdirs, depth + 1, s)
    decreases |rel|, 0
  {
    var i :| 0 <= i < |d.subdirs| && d.subdirs[i].name == rel[0] && HasFile(d.subdirs[i].dir, rel[1..]);
    var r0 := root + [rel[0]];
    assert r0 + rel[1..] == root + rel;
    assert r0 + Parent(rel[1..]) == root + Parent(rel);
    WalkComplete(r0, d.subdirs[i].dir, depth + 1, s, rel[1..]);
    WalkSubsContains(root, d.subdirs, depth + 1, s, i, root + rel);
  }

  lemma {:induction false} WalkSubsContains(root: seq<string>, subs: seq<Sub>, depth: int, s: Settings, i: nat, p: seq<string>)
    requires i < |subs| && p in Walk(root + [subs[i].name], subs[i].dir, depth, s)
    ensures p in WalkSubs(root, subs, depth, s)
    decreases i
  {
    if i > 0 {
      assert subs[1..][i - 1] == subs[i];
      WalkSubsContains(root, subs[1..], depth, s, i - 1, p);
    }
  }

  lemma {:induction false} MatchingComplete(root: seq<string>, files: seq<string>, s: Settings, f: string)
    requires f in files && Supported(f, s)
    ensures root + [f] in Matching(root, files, s)
    decreases |files|
  {
    if files[|files| - 1] != f {
      var k :| 0 <= k < |files| && files[k] == f;
      assert files[..|files| - 1][k] == f;
      MatchingComplete(root, files[..|files| - 1], s, f);
    }
  }

  /** What the walk from the base gathers is exactly the supported files of
      the tree lying in listed directories. */
  lemma GatheredExactly(base: seq<string>, tree: Dir, s: Settings, p: seq<string>)
    ensures p in Walk(base, tree, 0, s) <==> exists rel :: GatheredAs(base, tree, 0, s, p, rel)
  {
    if p in Walk(base, tree, 0, s) {
      var rel := WalkSound(base, tree, 0, s, p);
    }
    if exists rel :: GatheredAs(base, tree, 0, s, p, rel) {
      var rel :| GatheredAs(base, tree, 0, s, p, rel);
      WalkComplete(base, tree, 0, s, rel);
    }
  }
}
