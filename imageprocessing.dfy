/** The per-file worker of the duplicate scan: read the image with the first
    reader that succeeds, hash it, and report the file's size and mtime.
    Images and the perceptual hash are opaque: a reader's outcome for the file
    is given as an `Option`, the hash as a function of the image read. */
module ImageProcessing {
  import opened Common
  import opened Paths

  /** What each `safe_read_with_*` reader would yield for the file, and whether
      the optional `rawpy` and `imageio` packages could be imported. */
  datatype Readers<Img> = Readers(
    opencv: Option<Img>,
    pillow: Option<Img>,
    rawpyLoaded: bool,
    rawpy: Option<Img>,
    imageioLoaded: bool,
    imageio: Option<Img>)

  /** `safe_read_with_rawpy`: nothing when the package is missing. */
  function RawpyRead<Img>(rd: Readers<Img>): (r: Option<Img>)
    ensures !rd.rawpyLoaded ==> r.None?
    ensures rd.rawpyLoaded ==> r == rd.rawpy
  {
    if rd.rawpyLoaded then rd.rawpy else None
  }

  /** `safe_read_with_imageio`: nothing when the package is missing. */
  function ImageioRead<Img>(rd: Readers<Img>): (r: Option<Img>)
    ensures !rd.imageioLoaded ==> r.None?
    ensures rd.imageioLoaded ==> r == rd.imageio
  {
    if rd.imageioLoaded then rd.imageio else None
  }

  /** One reader tried on the file: the `read_method` name it reports and its outcome. */
  datatype Attempt<Img> = Attempt(reader: string, outcome: Option<Img>)

  /** The fixed order of the readers. */
  const ReaderOrder: seq<string> := ["opencv", "pillow", "rawpy", "imageio"]

  /** The readers the worker may try on a file with lower-cased suffix `ext`,
      in the order it tries them: `rawpy` only for ".cr2" files with the
      package present, `imageio` only with its package present. */
  function Attempts<Img>(rd: Readers<Img>, ext: string): seq<Attempt<Img>>
  {
    [Attempt("opencv", rd.opencv), Attempt("pillow", rd.pillow)]
    + (if ext == ".cr2" && rd.rawpyLoaded then [Attempt("rawpy", rd.rawpy)] else [])
    + (if rd.imageioLoaded then [Attempt("imageio", rd.imageio)] else [])
  }

  /** The first attempt that yields an image, with the name of its reader. */
  function FirstSuccess<Img>(attempts: seq<Attempt<Img>>): (r: Option<(Img, string)>)
    ensures r.None? <==> forall k :: 0 <= k < |attempts| ==> attempts[k].outcome.None?
    ensures r.Some? ==> exists k :: 0 <= k < |attempts| && attempts[k] == Attempt(r.value.1, Some(r.value.0))
                                    && forall j :: 0 <= j < k ==> attempts[j].outcome.None?
  {
    if |attempts| == 0 then None
    else if attempts[0].outcome.Some? then Some((attempts[0].outcome.value, attempts[0].reader))
    else
      var rest := FirstSuccess(attempts[1..]);
      if rest.Some? then
        assert forall k :: 0 <= k < |attempts[1..]| ==> attempts[1..][k] == attempts[k + 1];
        rest
      else rest
  }

  /** The attempted readers keep the fixed order, each at most once, and the
      first two are always opencv and pillow. */
  lemma AttemptsInOrder<Img>(rd: Readers<Img>, ext: string)
    ensures var a := Attempts(rd, ext);
            && 2 <= |a| <= 4 && a[0].reader == "opencv" && a[1].reader == "pillow"
            && (forall k :: 0 <= k < |a| ==> a[k].reader in ReaderOrder)
            && (forall i, j :: 0 <= i < j < |a| ==> IndexIn(a[i].reader) < IndexIn(a[j].reader))
    ensures (exists k :: 0 <= k < |Attempts(rd, ext)| && Attempts(rd, ext)[k].reader == "rawpy")
            <==> ext == ".cr2" && rd.rawpyLoaded
  {
    var a := Attempts(rd, ext);
    if ext == ".cr2" && rd.rawpyLoaded {
      assert a[2].reader == "rawpy";
    }
  }

  /** Position of a reader's name in the fixed order. */
  function IndexIn(m: string): nat
  {
    if m == "opencv" then 0 else if m == "pillow" then 1 else if m == "rawpy" then 2 else 3
  }

  /** The cascade reads nothing exactly when every reader it may try fails:
      opencv, pillow, rawpy when it counts (".cr2" files with the package
      present) and imageio when its package is present. */
  lemma CascadeFails<Img>(rd: Readers<Img>, ext: string)
    ensures FirstSuccess(Attempts(rd, ext)).None?
            <==> rd.opencv.None? && rd.pillow.None? && (!(ext == ".cr2" && rd.rawpyLoaded) || rd.rawpy.None?)
                 && ImageioRead(rd).None?
  {
    var a := Attempts(rd, ext);
    if FirstSuccess(a).None? {
      assert a[0].outcome.None? && a[1].outcome.None?;
      if ext == ".cr2" && rd.rawpyLoaded { assert a[2].outcome.None?; }
      if rd.imageioLoaded { assert a[|a| - 1] == Attempt("imageio", rd.imageio); }
    }
  }

  /** The reader named is the first in the order opencv, pillow, rawpy,
      imageio whose outcome is an image, where rawpy counts only for ".cr2"
      files with the package present and imageio only with its package present. */
  lemma CascadeReads<Img>(rd: Readers<Img>, ext: string)
    ensures var r := FirstSuccess(Attempts(rd, ext));
            var rawTried := ext == ".cr2" && rd.rawpyLoaded;
            && (r.Some? && r.value.1 == "opencv" ==> rd.opencv == Some(r.value.0))
            && (r.Some? && r.value.1 == "pillow" ==> rd.opencv.None? && rd.pillow == Some(r.value.0))
            && (r.Some? && r.value.1 == "rawpy" ==>
                  rd.opencv.None? && rd.pillow.None? && rawTried && rd.rawpy == Some(r.value.0))
            && (r.Some? && r.value.1 == "imageio" ==>
                  rd.opencv.None? && rd.pillow.None? && (!rawTried || rd.rawpy.None?)
                  && rd.imageioLoaded && rd.imageio == Some(r.value.0))
            && (r.Some? ==> r.value.1 in ReaderOrder)
  {
    var a := Attempts(rd, ext);
    var r := FirstSuccess(a);
    AttemptsInOrder(rd, ext);
    if r.Some? {
      var k :| 0 <= k < |a| && a[k] == Attempt(r.value.1, Some(r.value.0))
               && forall j :: 0 <= j < k ==> a[j].outcome.None?;
      if ext == ".cr2" && rd.rawpyLoaded {
        assert a[2] == Attempt("rawpy", rd.rawpy);
      }
    }
  }

  /** `(relpath, hash_hex, read_method, size, mtime)`. */
  datatype WorkerResult = WorkerResult(relpath: RelPath, hash: Option<string>, readMethod: string, size: nat, mtime: real)

  /** `worker_process_file`. `stat` is the file's `(size, mtime)`, absent when
      reading them raised; `phash` is `compute_phash_from_bgr`, which may fail. */
  method WorkerProcessFile<Img>(rel: RelPath, stat: Option<(nat, real)>, rd: Readers<Img>, phash: Img -> Option<string>)
    returns (r: Option<WorkerResult>)
    requires |rel| > 0
    ensures stat.None? ==> r.None?
    ensures stat.Some? ==> r.Some? && r.value.relpath == rel
                           && r.value.size == stat.value.0 && r.value.mtime == stat.value.1
    ensures stat.Some? ==> match FirstSuccess(Attempts(rd, Lower(Suffix(Name(rel)))))
                             case None => r.value.hash.None? && r.value.readMethod == "fail"
                             case Some(read) => r.value.hash == phash(read.0) && r.value.readMethod == read.1
  {
    if stat.None? {
      return None;
    }
    var (size, mtime) := stat.value;
    var readMethod: Option<string> := None;
    var img: Option<Img> := None;
    img := rd.opencv;
    if img.Some? {
      readMethod := Some("opencv");
    } else {
      img := rd.pillow;
      if img.Some? {
        readMethod := Some("pillow");
      } else {
        var suffix := Lower(Suffix(Name(rel)));
        if suffix == ".cr2" && rd.rawpyLoaded {
          img := RawpyRead(rd);
          if img.Some? {
            readMethod := Some("rawpy");
          }
        }
        if img.None? && rd.imageioLoaded {
          img := ImageioRead(rd);
          if img.Some? {
            readMethod := Some("imageio");
          }
        }
      }
    }
    CascadeFails(rd, Lower(Suffix(Name(rel))));
    CascadeReads(rd, Lower(Suffix(Name(rel))));
    assert img.Some? ==> readMethod.Some?;
    if img.None? {
      return Some(WorkerResult(rel, None, "fail", size, mtime));
    }
    var hashHex := phash(img.value);
    return Some(WorkerResult(rel, hashHex, readMethod.value, size, mtime));
  }
}
