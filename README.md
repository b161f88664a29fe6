# Duplicate-image finder and blur detector: a verified model

This project models the decision logic of a small image-library tool in Dafny and proves properties of it. The tool has two programs.

- **The duplicate scan** (`main.py`):
  - It walks the working directory to a bounded depth and collects files with a supported extension.
  - A file is hashed again when the cache cannot vouch for it. Otherwise its cached perceptual hash is reused.
  - Each file is read with the first image reader that succeeds.
  - Hashes within a Hamming-distance threshold of a group's seed form a group of duplicates.
  - In each group, the sharpest file is kept. The others are moved into a duplicates folder under a name that overwrites nothing, and the SQLite cache follows each move.
- **The blur detector** (`blurry_detector.py`):
  - It scores each image as a whole, or tile by tile on a 3x3 grid.
  - It classifies the image as clear, blurry or partially blurry. A partially blurry image gets one of three severity tiers.
  - It moves blurry images into a `blurry` folder.

Images, perceptual hashes and sharpness scores are opaque:

- A reader's outcome on a file is an `Option`.
- The hash is a function of the image read.
- A sharpness score is a function of the image, or of the rectangle of the image it is computed on.

The file system is an in-memory directory tree, seen in listing order, together with a map from folders to the names in them. The cache table is a `map` from relative paths to rows. A relative path is the sequence of its components.

Modules, one per source component:

- `Common`: `Option`, `Result`, map overlay, and an insertion-ordered map standing for a Python dict.
- `Paths`: relative paths, pathlib's stem and suffix, ASCII lower-casing and decimal rendering.
- `Hamming`: the distance between hex hashes.
- `Grouping`: `group_duplicates`.
- `Gather`: `gather_files_with_depth`.
- `ImageProcessing`: `worker_process_file`.
- `Cache`: `db_helpers.py`, as the class `CacheStore`.
- `SafeMove`: `safe_move_and_update`.
- `Scan`: the driver in `main.py`.
- `Sharpness`: `sharpness.py`.
- `BlurDetector`: `blurry_detector.py`.

## Model

| member | source | states |
|---|---|---|
| Common.OverlayKeys | db_helpers.py:23-29 | Writing a batch of pairs over a map gives exactly the old keys plus the batch's keys |
| Common.OverlayLastWins | db_helpers.py:23-29 | A key takes the value of its last occurrence in the batch |
| Common.OverlayUntouched | db_helpers.py:23-29 | A key absent from the batch keeps its presence and its value |
| Common.OrderedMap.Put | main.py:78 | Dict assignment keeps the map well formed and updates the value. A present key keeps its place; a new key goes last |
| Common.OrderedMap.Items | main.py:101-102 | Iterating the dict yields every key once, in insertion order, with its value |
| Paths.LastIndexOf | utils.py:64 | The result is the last position of the character, or -1 exactly when the character is absent |
| Paths.StemSuffixSplit | utils.py:64 | Stem followed by suffix is the name. The suffix is empty or a dot plus at least one non-dot character. A non-empty suffix has a non-empty stem |
| Paths.LowerSpec | utils.py:29 | Lower-casing keeps the length, leaves no capital A-Z, turns each capital into its small letter, changes every other character not at all, and is idempotent |
| Paths.DecimalRoundTrip | utils.py:64 | Parsing the decimal rendering of `counter` gives it back |
| Paths.DecimalInjective | utils.py:64 | Different counters render differently |
| Hamming.ParseHex | image_processing.py:113 | `int(h, 16)` succeeds exactly on non-empty plain hex numerals (digits only: no prefix, sign, whitespace or underscore) |
| Hamming.HexValueBound | image_processing.py:109 | A hex numeral of n digits denotes a value below 2^(4n) |
| Hamming.ZFillBinary | image_processing.py:113 | `bin(x)[2:].zfill(64)` is the 64-bit big-endian bit string of x, for x below 2^64 |
| Hamming.CountDifferingBits | image_processing.py:114 | The count of differing positions of two 64-bit strings is popcount(a XOR b) |
| Hamming.FallbackIsPopCountOfXor | image_processing.py:112-114 | The fallback branch computes popcount(a XOR b) for values below 2^64 |
| Hamming.HammingDistanceHex | image_processing.py:106-114 | The distance is defined (no ValueError) exactly when both strings are plain hex numerals |
| Hamming.DistanceIsPopCountOfXor | image_processing.py:106-114 | Both branches give popcount of the XOR, at most 64, for values below 2^64 |
| Hamming.DistanceBound | image_processing.py:109-110 | Two 16-digit hashes are always at a defined distance of at most 64 |
| Hamming.DistanceSymmetric | image_processing.py:106-114 | The distance does not depend on argument order |
| Hamming.DistanceToSelf | image_processing.py:106-114 | A parseable hash is at distance 0 from itself |
| Hamming.CountDifferingSymmetric | image_processing.py:114 | The count of differing positions is symmetric |
| Hamming.CountDifferingBound | image_processing.py:114 | At most the string length positions differ |
| Grouping.Present | utils.py:34 | `indexed` keeps exactly the entries that have a hash, with their input positions, in increasing order |
| Grouping.PresentComplete | utils.py:34 | Every entry with a hash reaches `indexed` |
| Grouping.HammingDefinedOnHex | image_processing.py:106-114 | The distance is defined exactly on pairs of plain hex numerals |
| Grouping.GroupDuplicates | utils.py:33-55 | Terminates with a ValueError exactly when at least two entries have a hash and one of them is not a plain hex numeral. It yields the seed-centric groups: size at least 2, seed first, members after the seed and within the threshold of it, disjoint, greedily complete. Given distinct paths, no path is reported twice |
| Grouping.GroupIndexed | utils.py:38-55 | The outer loop over `used` produces exactly the specified scan state, or the error |
| Grouping.OpenGroup | utils.py:39-54 | Opening an unused seed advances the scan by one seed. A group of two or more is appended; a lone seed is dropped |
| Grouping.GrowGroup | utils.py:45-52 | The inner loop marks and collects exactly the later unused entries within the threshold of the seed, or meets the error |
| Grouping.GrownSpec | utils.py:45-52 | A grown group is in input order; its non-seed members are unused and close to the seed; it holds every later unused entry close to the seed |
| Grouping.GrownDefined | utils.py:47 | Growing a group raises no error exactly when the seed and every later unused hash parse |
| Grouping.ScannedDefined | utils.py:38-54 | The whole scan errs exactly when at least two hashes are present and one is malformed |
| Grouping.ScannedMarks | utils.py:39-52 | After the first i seeds, the used entries are those below i and those in a group |
| Grouping.ScanIsSeedCentric | utils.py:38-54 | The scan state after i seeds meets the seed-centric specification up to i |
| Grouping.CloseGroup | utils.py:53-54 | Appending a completed group of two or more keeps the specification and extends it to the next seed |
| Grouping.NoPathTwice | utils.py:36-52 | With distinct input paths, disjoint groups never repeat a path |
| Grouping.GroupedEntriesHaveHashes | utils.py:34 | Every grouped path comes from an entry that has a hash |
| Grouping.SeedCentricNotTransitive | utils.py:42-52 | If the first of three hashes is close to both others, all three form one group, whatever the distance between the other two |
| Grouping.SeedOrder | utils.py:38-54 | Groups come in the order of their seeds |
| Gather.GatherFilesWithDepth | utils.py:14-31 | The walk's method returns exactly the reference walk from the base at depth 0 |
| Gather.WalkBelowRoot | utils.py:18-30 | Every path the reference walk `Gather.Walk` gathers lies strictly below the directory walked; exact contents in Gather.GatheredExactly |
| Gather.WalkInto | utils.py:18-30 | Appends exactly the walk of one directory |
| Gather.WalkSubsInto | utils.py:18-30 | Appends the walks of the subdirectories in listing order |
| Gather.AppendMatching | utils.py:28-30 | Appends exactly the supported files of one directory, in order |
| Gather.WalkSound | utils.py:18-30 | Everything gathered is a supported file of the tree, in a directory not deeper than the maximum and with no duplicates-folder component |
| Gather.WalkComplete | utils.py:18-30 | Every such file is gathered |
| Gather.GatheredExactly | utils.py:14-31 | A path is gathered if and only if it is a supported file in a listed directory |
| ImageProcessing.FirstSuccess | image_processing.py:82-98 | Nothing is read exactly when every attempt fails. Otherwise the image comes from an attempt preceded only by failures |
| ImageProcessing.AttemptsInOrder | image_processing.py:82-98 | Readers are tried in the fixed order opencv, pillow, rawpy, imageio, each at most once. Rawpy is tried exactly for ".cr2" files with the package present |
| ImageProcessing.CascadeFails | image_processing.py:82-101 | "fail" exactly when opencv, pillow, rawpy (when it counts) and imageio all fail |
| ImageProcessing.CascadeReads | image_processing.py:82-98 | The reader reported is the first in the order that succeeds, with its image |
| ImageProcessing.WorkerProcessFile | image_processing.py:71-104 | No result when stat fails. Otherwise the path, size and mtime are carried over, with either "fail" and no hash, or the hash of the first image read and the reader's name |
| Cache.Renamed | db_helpers.py:31-38 | The UPDATE fails (UNIQUE constraint) exactly when both paths have different rows. A missing old path changes nothing. Otherwise the row is re-keyed with hash and read method kept and the new size and mtime, and other rows are unchanged |
| Cache.CacheStore.GetMetadataMap | db_helpers.py:18-21 | Returns `filepath -> (size, mtime, hash)` for every row |
| Cache.CacheStore.UpsertEntries | db_helpers.py:23-29 | The table becomes the old table overwritten by the batch in order (INSERT OR REPLACE) |
| Cache.CacheStore.UpdateFilepath | db_helpers.py:31-38 | The table becomes the renamed table, or is unchanged with the constraint error |
| Cache.UpsertKeys | db_helpers.py:23-29 | After the upsert, the paths are the old ones plus the batch's |
| Cache.UpsertLastWins | db_helpers.py:23-29 | A path takes the row of its last occurrence in the batch |
| Cache.UpsertUntouched | db_helpers.py:23-29 | Rows of paths outside the batch are unchanged |
| Cache.UpsertThenLoad | db_helpers.py:18-29 | Reading metadata after an upsert: present iff in the table or the batch; batch values win; other values are kept |
| SafeMove.CandidateLonger | utils.py:64 | Every renamed candidate is longer than the original name |
| SafeMove.CandidateInjective | utils.py:63-66 | Different counters give different candidate names |
| SafeMove.CandidatesBound | utils.py:63-66 | The loop can try at most as many taken names as the folder holds |
| SafeMove.ChooseName | utils.py:62-67 | The name chosen is free in the folder, and every earlier candidate is taken |
| SafeMove.FreeFrom | utils.py:63-66 | The first free candidate from k on; all before it are taken |
| SafeMove.FreeUnique | utils.py:63-66 | The first free candidate is unique |
| SafeMove.ChosenName | utils.py:62-67 | The original name is kept exactly when it is free. Otherwise the name is `stem_k+suffix` for the smallest free k of at least 1 |
| SafeMove.SafeMoved | utils.py:57-75 | Reference move: success only when `shutil.move` succeeded, and a failed `shutil.move` changes neither table nor folders; the rest in SafeMove.SafeMovedSpec |
| SafeMove.SafeMovedSpec | utils.py:57-75 | A failed move changes nothing. A successful one never overwrites, leaves the file in the destination folder and changes no other folder. The cache row follows the file with hash and read method kept |
| SafeMove.SafeMovedInStep | utils.py:57-75 | With every cached row naming a file on disk, a move that `shutil.move` carries out also updates the cache, since the chosen name is held by no row; the cache stays in step |
| SafeMove.RenamedInStep | db_helpers.py:31-38 | Re-keying a row to a path whose name was free in its folder succeeds and keeps every row naming a file on disk after the move |
| SafeMove.SafeMoveAndUpdate | utils.py:57-75 | The method's result, table and folders are exactly the reference move |
| Scan.CheckArgs | main.py:42-48 | Exit 1 iff the working directory is missing; exit 2 iff the threshold is outside 0..64; otherwise the scan goes on |
| Scan.Stale | main.py:62-78 | Reference list of files to hash: no longer than the gathered list, drawn from it; exact contents in Scan.PartitionExact |
| Scan.Reused | main.py:62-78 | Reference `entries_from_db`: a well-formed ordered map whose keys are gathered files; exact contents in Scan.PartitionExact |
| Scan.Partition | main.py:62-78 | The loop builds exactly the stale list and the reused map |
| Scan.PartitionExact | main.py:62-78 | A file is rehashed iff it is not reusable: forced rescan, no cache row, failed stat, size changed, or mtime off by more than 1e-6. Otherwise its cached entry is reused |
| Scan.ForceRescanAll | main.py:71-72 | `--force-rescan` rehashes every file and reuses nothing |
| Scan.Delivered | main.py:85-89 | Every kept result is a delivered `Some` and no more results are kept than delivered |
| Scan.DeliveredAppend | main.py:85-89 | Kept results follow delivery order, one per `Some` and none per `None`: the filter distributes over concatenation |
| Scan.DeliveredComplete | main.py:85-89 | Every non-None result is kept |
| Scan.PutResultsOverlay | main.py:95-96 | The entry map after the merge is the reused map overwritten by the results |
| Scan.MergeWins | main.py:95-96 | A fresh result replaces the cached entry; untouched paths keep theirs |
| Scan.MergeResults | main.py:80-96 | The table is upserted with exactly the delivered results, and the entry map is merged with them |
| Scan.EntriesOf | main.py:100-102 | The grouper receives the entries in dict order with their hashes |
| Scan.KeeperIndex | main.py:114-130 | No keeper iff no score beats -1. Otherwise the keeper holds the first highest score |
| Scan.SelectKeeper | main.py:114-130 | The loop with strict `>` returns the first maximum |
| Scan.SeedKeptAsWritten | main.py:120-126 | With every score 0.0, the keeper is always the group's seed |
| Scan.SharperSecondMember | main.py:120-130 | Concrete pair: intended scores keep the sharper second member; as written, the first is kept |
| Scan.DestDir | main.py:136-140 | The duplicates folder is beside the file when recursive, else in the working directory |
| Scan.DefaultDepthMovesBeside | main.py:136-140 | Without `-R` (depth 5) a duplicate's folder is beside it; with `-R 0` it is the working directory's duplicates folder |
| Scan.Others | main.py:132-134 | The members that get a move attempt are all but the keeper, in order |
| Scan.OthersAppend | main.py:132-134 | The queue keeps group order: the queue of a concatenation is the concatenation of the queues |
| Scan.OthersSingle | main.py:132-134 | A single member is queued exactly when it is not the keeper |
| Scan.OthersCount | main.py:132-134 | The keeper is never queued for a move; every other occurrence is queued exactly once |
| Scan.OthersSize | main.py:132-134 | A keeper that is a member is skipped |
| Scan.MoveOne | main.py:136-151 | One file: the count rises by exactly one when the run has not ended, the duplicates folder exists or its `mkdir` succeeds, and `safe_move_and_update` succeeds; otherwise it stays. Nothing happens once a failing `mkdir` has ended the run |
| Scan.MoveOneCounted | main.py:136-151 | With every cached row naming a file on disk, a file whose `mkdir` and `shutil.move` succeed is counted, and the cache stays in step with the disk |
| Scan.MovedAll | main.py:132-151 | Reference moves of a group from a given state: at most one counted move per file, and no change at all from an ended run |
| Scan.MovedAllCompletes | main.py:142-143 | When every `mkdir` succeeds, the moves never end the run |
| Scan.MovedAllCounted | main.py:132-151 | When every `mkdir` and `shutil.move` succeeds and the cache is in step with the disk, the count rises by exactly the number of queued files |
| Scan.MovedAllStep | main.py:132-151 | One more member: the keeper adds nothing; any other adds one step of `Scan.MoveOne` |
| Scan.MoveGroup | main.py:132-151 | The loop's running count, table, folders and ended-run flag are exactly the reference moves of the non-keepers, creating missing duplicates folders |
| Scan.AfterMkdir | main.py:141-143 | A created duplicates folder is listed, empty, and its name appears in its parent folder |
| Scan.AfterMkdirAdds | main.py:141-143 | `mkdir` removes no name from any folder and changes no folder but the new one's parent |
| Scan.MoveIfNotKept | main.py:132-151 | One turn of the group loop: the state advances by the reference step of that member, nothing for the keeper |
| Scan.MoveMember | main.py:136-151 | One non-keeper: the count, table, folders and ended-run flag become exactly the reference step: nothing after an ended run, a failing `mkdir` of a missing folder ends it, otherwise `safe_move_and_update`, counted on success |
| Scan.MovedGroups | main.py:113-151 | Reference processing of all groups: no more moves counted than files in the groups |
| Scan.MovedGroupsComplete | main.py:113-151 | When every `mkdir` succeeds, every group is processed and the run reaches its summary |
| Scan.MovedGroupsCounted | main.py:113-151 | Under the same conditions `moved_count` equals the number of queued files, all members but the keepers, and the run is not ended |
| Scan.OneKeptPerGroup | main.py:113-151 | With scores above -1, each group keeps a file: at most all but one file per group is moved |
| Scan.ProcessGroups | main.py:113-151 | The loop over groups yields exactly the reference count, table, folders and ended-run flag; once a `mkdir` raised, no later group is scored or moved |
| Sharpness.Downscale | sharpness.py:12-16 | Width at most 800 leaves the image unchanged; a wider one gets width 800 and the computed height, and raises exactly when that height truncates to 0 (`cv2.resize` refuses an empty size) |
| Sharpness.DownscaleIdempotent | sharpness.py:12-16 | Downscaling an image that was downscaled without raising leaves it as it is |
| Sharpness.CenterCrop | sharpness.py:22-26 | The crop lies inside the image with exactly the cropped size. The bottom (right) margin is the top (left) margin or one more |
| Sharpness.GridSharpnessScores | sharpness.py:42-54 | Succeeds iff every tile's scoring succeeds, with exactly 9 scores, the k-th for the tile in row k/3 and column k%3 (row-major); otherwise raises the exception of the first tile whose scoring raised |
| Sharpness.ThinImageEmptyTiles | sharpness.py:47-53 | Every tile is empty iff the image is under 3 pixels high or wide; otherwise no tile is, so a kernel that raises on an empty tile makes exactly the thin images raise |
| Sharpness.TileInside | sharpness.py:47-52 | Every tile lies inside the image and is `tile_h` by `tile_w` |
| Sharpness.TilesDisjoint | sharpness.py:47-52 | Two different tiles share no pixel |
| Sharpness.GridCoverage | sharpness.py:47-52 | A pixel is in some tile iff it is in the top-left 3·tile_h by 3·tile_w block. The fewer than 3 leftover rows and columns are in none |
| Sharpness.PixelTile | sharpness.py:47-52 | A covered pixel lies in the tile of its row and column bands |
| BlurDetector.BlurRead | blurry_detector.py:37-43 | Reads with the first of opencv, pillow, rawpy, imageio that succeeds, for every suffix. Nothing iff all four fail |
| BlurDetector.BlurReadMatchesWorker | blurry_detector.py:37-43 | For ".cr2" files, or when rawpy reads nothing, the blur worker reads the same image as the scan's worker |
| BlurDetector.BlurryTiles | blurry_detector.py:58 | The count of tiles below both thresholds is at most the number of tiles |
| BlurDetector.BlurryTilesExtremes | blurry_detector.py:58 | The count equals the number of tiles iff every tile is blurry, and is 0 iff none is |
| BlurDetector.BlurryTilesAntitone | blurry_detector.py:58 | Raising tile scores never raises the count |
| BlurDetector.Tier | blurry_detector.py:60-67 | No tier exactly below 3 blurry tiles; "partially_blurry" exactly for 3 to 5, "mostly_blurry" exactly for 6 to 8, "completely_blurry" exactly from 9 |
| BlurDetector.TierMonotone | blurry_detector.py:60-67 | More blurry tiles never give a milder tier; every tier is one of the three names |
| BlurDetector.CompletelyIffAllTiles | blurry_detector.py:60-67 | On the 9-tile grid, "completely_blurry" iff all tiles are blurry |
| BlurDetector.ClassifyBlur | blurry_detector.py:35-73 | "blurry" only in whole-image mode, "blurry_partial" only in tiled mode and always with one of the three tiers; the other outcomes in the three lemmas below |
| BlurDetector.ClassifyFailOrError | blurry_detector.py:35-73 | "fail" iff all four readers fail; "error" with the exception's message iff scoring the read image raised |
| BlurDetector.ClassifyWhole | blurry_detector.py:52-71 | Whole-image mode: "blurry" iff both scores are below threshold, else "clear" |
| BlurDetector.ClassifyTiled | blurry_detector.py:56-71 | Tiled mode: "blurry_partial" with the count's tier iff at least 3 tiles are blurry, else "clear"; never "blurry". With 9 scores, "completely_blurry" iff every tile is below both thresholds |
| BlurDetector.Destination | blurry_detector.py:111-122 | "blurry" goes to `blurry`, "blurry_partial" to `blurry/<tier>`, all other statuses stay |
| BlurDetector.Dispatched | blurry_detector.py:104-122 | The intended loop moves one file per blurry result at most (the reference definition) |
| BlurDetector.Movable | blurry_detector.py:111-120 | Counts the results that ask to be moved |
| BlurDetector.DispatchedCountsBlurry | blurry_detector.py:104-122 | When every move succeeds, moved_count equals the number of blurry results, and nothing moves without one |
| BlurDetector.DispatchOne | blurry_detector.py:111-120 | One result: at most one more counted move, nothing after the loop ended, and the loop ends only on a failing move of a blurry result |
| BlurDetector.DispatchOneMoves | blurry_detector.py:111-120 | A result is counted iff it is blurry and its move succeeded. The file lands under a name that was free, its own or a longer one; it leaves its old folder, and no other folder changes |
| BlurDetector.DispatchResults | blurry_detector.py:104-122 | The loop's count, folders and abort flag are exactly the reference dispatch |
| BlurDetector.DispatchedAsWritten | blurry_detector.py:104-122 | Reference loop as written, with the undefined `safe_move`: at most one count per result; its properties in BlurDetector.AsWrittenMovesNothing |
| BlurDetector.AsWrittenMovesNothing | blurry_detector.py:111-120 | As written, nothing is ever moved or counted, and the run aborts iff some image is blurry |
| BlurDetector.OneBlurryImage | blurry_detector.py:111-120 | One blurry image: as written the run aborts with nothing moved; the intended loop moves it |

## Left out

- Image decoding (`safe_read_with_*`): each reader's outcome on a file is a given `Option`, because decoding is foreign code.
- The perceptual hash (`compute_phash_from_bgr`), the Laplacian/Tenengrad kernels (`sharpness_score`) and the Laplacian keeper score: opaque functions to `real`/`Option<string>`, because they are floating-point numeric kernels.
- `int(h * (800 / w))` in `downscale` and `int(h * 0.7)` in `center_crop` are given integers. Their floating-point values differ from exact arithmetic at some sizes (`0.7 * 90` computes as 62.999…).
- Sharpness.GridSharpnessScores: the tile kernel (`sharpness_score`: crop, grey conversion, Laplacian, Sobel) is a parameter that either scores a rectangle or raises. Which rectangles make it raise is not modelled beyond Sharpness.ThinImageEmptyTiles: an empty tile (image under 3 pixels high or wide) and a tile whose 70% crop is empty (tile height or width 1) both make `cv2.cvtColor` raise. In the blur worker these exceptions, like the one Sharpness.Downscale raises, are the "error" outcome that ClassifyBlur's `whole` and `grid` results carry.
- Sharpness.CenterCrop: requires the cropped size not to exceed the image, which `int(h * 0.7)` always meets.
- Floating-point rounding of mtimes and scores: Dafny `real`. The tolerance 1e-6 is exact.
- Concurrency: `ProcessPoolExecutor.map` is a sequence of results in input order, which `map` preserves. tqdm progress is not modelled.
- I/O: `os.walk` is a recursive walk over an in-memory tree. `shutil.move` changes a folder-listing map and either fully succeeds or raises. `mkdir` of a missing duplicates folder adds it, empty, to that map and its name to its parent's listing; whether it succeeds is a parameter, and a failure ends the run as in the source. `stat` is a function parameter.
- Scan.MovedAllCounted, Scan.MovedGroupsCounted: assume every cached row names a file on disk. The source never prunes rows of deleted files; such a stale row can hold the name `safe_move_and_update` picks, and then the UPDATE fails and the move is not counted (Scan.MoveOne states that case).
- SafeMove.SafeMoved: the `stat` of the moved file is a total function, so a `dst_full.stat()` that raises at utils.py:72-73 (file moved, row not updated, move not counted) is not modelled.
- Logging (`log_message`), `print`, argparse, and reading `-j`: plumbing without decisions.
- SQLite connection, WAL mode and schema creation (`init_db`): only the table's map semantics are modelled. NULL size or mtime columns from older rows are not modelled.
- `constants.py` is not part of this model. `DUP_DIR_NAME`, `SUPPORTED_EXTS`, `DB_NAME` and `LOG_FILE` are parameters.
- Hamming.ParseHex: models `int(h, 16)` on plain hex numerals only. Python also accepts a `0x`/`0X` prefix, surrounding whitespace, `_` between digits and a sign; the model reads those as a ValueError. Hashes written by `str(ImageHash)` are 16 plain digits, so the cached hashes never use that syntax.
- Hamming.HammingDistanceHex: takes the `hex_to_hash` branch only for two 16-digit strings. imagehash also accepts other lengths whose four-fold is a perfect square (25 digits, say), where the source compares the two hashes bit by bit instead of taking the 64-bit-padded fallback. It also inherits the plain-hex syntax of Hamming.ParseHex.
- Grouping.GroupDuplicates: its ValueError condition uses the plain-hex syntax of Hamming.ParseHex.
- Grouping.HammingDefinedOnHex: uses the plain-hex syntax of Hamming.ParseHex.
- `str.lower` is modelled on ASCII letters only. `Path.suffix` is modelled for plain names as pathlib splits them.
- `os.path.relpath` of paths under the working directory is the component sequence below it.
- Gather: as in the source, only the duplicates folder is excluded from the walk, not `blurry`. The exclusion tests every component of the absolute path, the base's included.
- The keeper's score as written is always 0.0 (see Findings). The model takes the intended score as a parameter.
- `main.py` lines 104-107 (early return with no entries) and the final summary print: they make no decision beyond what is modelled.

## Findings

| source | as written | input that shows it | evidently intended | confidence | as-written member | corrected member |
|---|---|---|---|---|---|---|
| main.py:123 | `np.array(gray)` uses `np`, which is never imported. Every score falls to the `except` branch as 0.0, so the first member of each group (its seed) is always kept | A group [a, b] whose second image is sharper | Keep the sharpest image: the first member with the highest Laplacian variance | high (not executed) | Scan.SeedKeptAsWritten, Scan.SharperSecondMember | Scan.KeeperIndex, Scan.SelectKeeper |
| blurry_detector.py:113, 117 | `safe_move(...)` is called but only `safe_move_and_update` is imported. The first blurry result raises NameError: nothing is moved or counted and the run aborts | One image classified "blurry" | Move each blurry image into its folder under a free name and count it | high (not executed) | BlurDetector.AsWrittenMovesNothing, BlurDetector.OneBlurryImage | BlurDetector.DispatchResults, BlurDetector.DispatchedCountsBlurry |
