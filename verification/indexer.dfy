/** The indexer of encontra_repetidos_sqlite.py: file hashing, the creation-date heuristic,
    per-file extraction, the resumable full scan, the reset prompt's mode mapping and the two
    duplicate queries. */
module Indexer {
  import opened Wrappers
  import opened Text
  import opened Timestamps
  import opened Catalog
  import opened DbUtils

  // ---------------------------------------------------------------------------------
  // The modelled disk

  /** What `os.stat` reports: the size, and `st_birthtime` already converted to local time
      (`None` where the platform has no birth time). */
  datatype StatResult = StatResult(size: int, birth: Option<Timestamp>)

  /** What the file system and the media probes report about one file. */
  datatype FileInfo = FileInfo(
    content: Option<seq<byte>>,   // the bytes `open(path, 'rb')` reads; None when that raises
    stat: Option<StatResult>,     // None when `stat` raises
    verifies: bool,               // `Image.open(path).verify()` raises nothing
    exif: Option<seq<ExifTag>>,   // the EXIF entries, named; None when the image cannot be opened
    probe: Option<string>)        // ffprobe's `format.tags.creation_time`; None when ffprobe fails or has none

  /** One file as `os.walk` yields it, in walk order: its path string and its name. */
  datatype DiskFile = DiskFile(path: string, name: string, info: FileInfo)

  // ---------------------------------------------------------------------------------
  // Extensions

  /** The position of the last dot. */
  function LastDot(s: string): (r: Option<nat>)
    ensures r.Some? ==> r.value < |s|
  {
    if s == [] then None
    else if s[|s| - 1] == '.' then Some(|s| - 1)
    else LastDot(s[..|s| - 1])
  }

  /** `LastDot` finds the last dot, and finds none only in a name without dots. */
  lemma {:induction false} LastDotSpec(s: string)
    ensures var r := LastDot(s);
      && (r.Some? ==> s[r.value] == '.' && forall j :: r.value < j < |s| ==> s[j] != '.')
      && (r.None? ==> forall j :: 0 <= j < |s| ==> s[j] != '.')
  {
    if s != [] && s[|s| - 1] != '.' {
      LastDotSpec(s[..|s| - 1]);
      assert forall j :: 0 <= j < |s| - 1 ==> s[..|s| - 1][j] == s[j];
    }
  }

  /** `PurePath.suffix`: from the last dot on, unless that dot begins or ends the name. */
  function Suffix(name: string): string
  {
    match LastDot(name)
    case Some(i) => if 0 < i < |name| - 1 then name[i..] else ""
    case None => ""
  }

  /** The suffix is non-empty exactly when the last dot of the name is neither its first nor its
      last character; it is then a dot, then at least one character that is not a dot, ending
      the name and shorter than it. */
  lemma SuffixSpec(name: string)
    ensures Suffix(name) != [] <==>
      exists i :: 0 < i < |name| - 1 && name[i] == '.' && forall j :: i < j < |name| ==> name[j] != '.'
    ensures var r := Suffix(name);
      r == [] || (r[0] == '.' && 2 <= |r| < |name| && name[|name| - |r|..] == r && '.' !in r[1..])
  {
    LastDotSpec(name);
    if LastDot(name).Some? {
      var i := LastDot(name).value;
      assert forall j :: 0 <= j < |name[i..][1..]| ==> name[i..][1..][j] == name[i + 1 + j];
    }
  }

  /** `os.path.splitext(str(path))[1]` for a path ending in `name`: from the last dot on,
      unless only dots come before it. */
  function SplitExt(name: string): (r: string)
    ensures |r| <= |name|
  {
    match LastDot(name)
    case Some(i) => if exists j :: 0 <= j < i && name[j] != '.' then name[i..] else ""
    case None => ""
  }

  /** The extension a scan files a path under: `path.suffix.lower()`. */
  function Ext(name: string): string
  {
    Lower(Suffix(name))
  }

  /** The extension `creation_date` looks at: `os.path.splitext(str(path))[1].lower()`. */
  function DateExt(name: string): string
  {
    Lower(SplitExt(name))
  }

  /** The two extension functions agree on every name that does not start with a dot. */
  lemma ExtensionsAgree(name: string)
    requires name != [] && name[0] != '.'
    ensures Suffix(name) != [] ==> SplitExt(name) == Suffix(name)
    ensures Ext(name) != [] ==> DateExt(name) == Ext(name)
  {
    if LastDot(name).Some? && 0 < LastDot(name).value {
      assert name[0] != '.';
    }
  }

  /** They disagree on a name such as `..jpg`: the scan files it as an image, while the
      creation date never consults its EXIF data. */
  lemma ExtensionsDisagree()
    ensures Ext("..jpg") == ".jpg" && ".jpg" in IMG_EXTS && DateExt("..jpg") == ""
  {
    var n := "..jpg";
    assert n[..4] == "..jp" && "..jp"[..3] == "..j" && "..j"[..2] == "..";
    assert LastDot("..") == Some(1);
    assert LastDot("..j") == Some(1);
    assert LastDot("..jp") == Some(1);
    assert LastDot(n) == Some(1);
    assert n[1..] == ".jpg";
    assert !(exists j :: 0 <= j < 1 && n[j] != '.');
    assert Lower(".jpg") == ".jpg";
    assert IMG_EXTS[0] == ".jpg";
  }

  // ---------------------------------------------------------------------------------
  // file_hash (lines 22-30)

  /** `file_hash`: feeds the file to SHA-256 in reads of `chunkSize` bytes and stops at the
      first empty read. `f.read(n)` reads everything that is left when `n` is negative and
      nothing when `n` is 0, so the digest is that of the whole file for every non-zero chunk
      size. */
  method FileHash(content: seq<byte>, chunkSize: int) returns (d: Digest)
    ensures chunkSize != 0 ==> d == Sha256(content)
    ensures chunkSize == 0 ==> d == Sha256([])
  {
    var fed: seq<byte> := [];
    var pos := 0;
    while true
      invariant 0 <= pos <= |content| && fed == content[..pos]
      invariant chunkSize == 0 ==> pos == 0
      decreases |content| - pos
    {
      var n := if chunkSize < 0 || pos + chunkSize > |content| then |content| - pos else chunkSize;
      var chunk := content[pos..pos + n];
      if chunk == [] {
        break;
      }
      fed := fed + chunk;
      pos := pos + n;
    }
    assert chunkSize != 0 ==> pos == |content|;
    d := Sha256(fed);
  }

  // ---------------------------------------------------------------------------------
  // creation_date (lines 33-92)

  /** The birth-time branch: `None` where `os.stat` raises or has no `st_birthtime` (line 91
      reads `st_birthtime` a second time, so there is no fallback to the modification time). */
  function BirthDate(info: FileInfo): (r: Option<string>)
    ensures r.Some? ==> Canonical(r.value)
    ensures r.Some? <==> info.stat.Some? && info.stat.value.birth.Some?
  {
    if info.stat.Some? && info.stat.value.birth.Some? then
      var t := info.stat.value.birth.value;
      ParseFormat(t);
      Some(Format(t))
    else None
  }

  /** `creation_date`: the EXIF `DateTimeOriginal` for an image extension, then ffprobe's
      `creation_time` for a video extension, then the birth time; `None` where it raises. */
  function CreationDate(ext: string, info: FileInfo): (r: Option<string>)
    ensures ext in DOC_EXTS ==> r == BirthDate(info)
    ensures (!(ext in IMG_EXTS && info.exif.Some? && ExifDate(info.exif.value).Some?)
             && !(ext in VIDEO_EXTS && info.probe.Some? && info.probe.value != "")) ==> r == BirthDate(info)
    ensures r.Some? && ext !in VIDEO_EXTS ==> Canonical(r.value)
  {
    var fromExif := if ext in IMG_EXTS && info.exif.Some? then ExifDate(info.exif.value) else None;
    if fromExif.Some? then
      assert ext in IMG_EXTS;
      assert ext !in DOC_EXTS by { if ext in DOC_EXTS { MediaNotDocument(ext); } }
      fromExif
    else if ext in VIDEO_EXTS && info.probe.Some? && info.probe.value != "" then
      assert ext !in DOC_EXTS by { if ext in DOC_EXTS { MediaNotDocument(ext); } }
      Some(NormalizeVideoTime(info.probe.value))
    else BirthDate(info)
  }

  /** EXIF is consulted only for image extensions and ffprobe only for video extensions. */
  lemma ProbesByExtension(ext: string, info: FileInfo)
    ensures ext !in IMG_EXTS ==> CreationDate(ext, info) == CreationDate(ext, info.(exif := None))
    ensures ext !in VIDEO_EXTS ==> CreationDate(ext, info) == CreationDate(ext, info.(probe := None))
  {
  }

  /** The first source that yields a date wins: an EXIF date makes the video probe and `stat`
      irrelevant, and a video's `creation_time` makes `stat` irrelevant. */
  lemma FirstSourceWins(ext: string, info: FileInfo, other: Option<StatResult>)
    ensures ext in IMG_EXTS && info.exif.Some? && ExifDate(info.exif.value).Some? ==>
      CreationDate(ext, info) == ExifDate(info.exif.value) == CreationDate(ext, info.(stat := other, probe := None))
    ensures ext in VIDEO_EXTS && info.probe.Some? && info.probe.value != "" ==>
      CreationDate(ext, info) == Some(NormalizeVideoTime(info.probe.value)) == CreationDate(ext, info.(stat := other))
  {
    if ext in VIDEO_EXTS {
      assert ext !in IMG_EXTS by {
        assert forall i, j :: 0 <= i < |IMG_EXTS| && 0 <= j < |VIDEO_EXTS| ==> IMG_EXTS[i][1..3] != VIDEO_EXTS[j][1..3] || IMG_EXTS[i] != VIDEO_EXTS[j];
      }
    }
  }

  /** Without a metadata date and without a birth time the date cannot be computed: the call
      raises rather than fall back to the modification time. */
  lemma NoModifiedTimeFallback(ext: string, info: FileInfo)
    requires info.stat.Some? && info.stat.value.birth.None?
    requires !(ext in IMG_EXTS && info.exif.Some? && ExifDate(info.exif.value).Some?)
    requires !(ext in VIDEO_EXTS && info.probe.Some? && info.probe.value != "")
    ensures CreationDate(ext, info).None?
  {
  }

  // ---------------------------------------------------------------------------------
  // Extraction (lines 179-196, 275-292)

  /** The `info` record built for one file, or `None` when hashing, `stat` or the creation date
      raises. `corrompida` is the verify probe, run for image extensions only. */
  function Meta(f: DiskFile): (m: Option<FileMeta>)
    ensures m.Some? <==> f.info.content.Some? && f.info.stat.Some? && CreationDate(DateExt(f.name), f.info).Some?
    ensures m.Some? ==> && m.value.nome == f.name && m.value.path == f.path && m.value.ext == Ext(f.name)
                        && m.value.hash == Sha256(f.info.content.value) && m.value.tamanho == f.info.stat.value.size
                        && m.value.dataCriacao == CreationDate(DateExt(f.name), f.info).value
                        && (m.value.corrompida <==> Ext(f.name) in IMG_EXTS && !f.info.verifies)
  {
    var ext := Ext(f.name);
    if f.info.content.None? || f.info.stat.None? then None
    else match CreationDate(DateExt(f.name), f.info)
      case None => None
      case Some(d) =>
        Some(FileMeta(f.name, f.path, Sha256(f.info.content.value), f.info.stat.value.size, d,
                      ext in IMG_EXTS && !f.info.verifies, ext))
  }

  /** The extraction as the scans run it, hashing through `file_hash` with its default chunk
      size. */
  method Probe(f: DiskFile) returns (m: Option<FileMeta>)
    ensures m == Meta(f)
  {
    var ext := Ext(f.name);
    var corrupted := false;
    if ext in IMG_EXTS {
      corrupted := !f.info.verifies;
    }
    if f.info.content.None? {
      return None;
    }
    var h := FileHash(f.info.content.value, 8192);
    if f.info.stat.None? {
      return None;
    }
    var d := CreationDate(DateExt(f.name), f.info);
    if d.None? {
      return None;
    }
    m := Some(FileMeta(f.name, f.path, h, f.info.stat.value.size, d.value, corrupted, ext));
  }

  /** A freshly inserted row is never deleted and is flagged corrupted only under an image
      extension. */
  lemma NewRowFlags(f: DiskFile, hasIgnorado: bool)
    requires Meta(f).Some?
    ensures var r := NewRow(Meta(f).value, hasIgnorado);
      !r.deletado && (r.corrompida ==> r.ext in IMG_EXTS) && r.path == f.path
  {
  }

  // ---------------------------------------------------------------------------------
  // collect_metadata_to_db (lines 162-211)

  /** A file the scan handles: a media extension and a path not processed before. */
  predicate Candidate(f: DiskFile, processed: set<string>)
  {
    IsMediaExt(Ext(f.name)) && f.path !in processed
  }

  /** The row one file contributes. */
  function Inserted(f: DiskFile, processed: set<string>, hasIgnorado: bool): seq<Row>
  {
    if Candidate(f, processed) && Meta(f).Some? then [NewRow(Meta(f).value, hasIgnorado)] else []
  }

  /** The rows the scan appends, in walk order. */
  function CollectRows(disk: seq<DiskFile>, processed: set<string>, hasIgnorado: bool): (r: seq<Row>)
    ensures |r| <= |disk|
  {
    if disk == [] then []
    else CollectRows(disk[..|disk| - 1], processed, hasIgnorado) + Inserted(disk[|disk| - 1], processed, hasIgnorado)
  }

  /** How many files the scan counts. */
  function Considered(disk: seq<DiskFile>, processed: set<string>): (n: nat)
    ensures n <= |disk|
  {
    if disk == [] then 0
    else Considered(disk[..|disk| - 1], processed) + (if Candidate(disk[|disk| - 1], processed) then 1 else 0)
  }

  /** One more file of the walk adds its count. */
  lemma ConsideredStep(c0: int, count: int, disk: seq<DiskFile>, i: nat, processed: set<string>)
    requires i < |disk|
    requires count == c0 + Considered(disk[..i], processed) + (if Candidate(disk[i], processed) then 1 else 0)
    ensures count == c0 + Considered(disk[..i + 1], processed)
  {
    assert disk[..i + 1][..i] == disk[..i] && disk[..i + 1][i] == disk[i];
  }

  /** One more file of the walk adds its row. */
  lemma CollectStep(start: seq<Row>, rows: seq<Row>, disk: seq<DiskFile>, i: nat, processed: set<string>, hasIgnorado: bool)
    requires i < |disk|
    requires rows == start + CollectRows(disk[..i], processed, hasIgnorado) + Inserted(disk[i], processed, hasIgnorado)
    ensures rows == start + CollectRows(disk[..i + 1], processed, hasIgnorado)
  {
    var d := disk[..i + 1];
    assert d[..|d| - 1] == disk[..i] && d[|d| - 1] == disk[i];
    assert CollectRows(d, processed, hasIgnorado)
        == CollectRows(disk[..i], processed, hasIgnorado) + Inserted(disk[i], processed, hasIgnorado);
  }

  /** The batching state of the scan: `batchCount` counted files since the last commit, at most
      that many rows beyond the `lastCommit` rows the last commit saved, and, until a batch has
      been committed, the committed table still as it was before the scan. */
  predicate Batched(store: Store, start: seq<Row>, committed0: seq<Row>, batchCount: nat, lastCommit: nat, flushed: bool)
    reads store
  {
    && batchCount < BATCH_SIZE
    && |start| <= lastCommit <= |store.rows| <= lastCommit + batchCount
    && (!flushed ==> store.committed == committed0)
    && (flushed ==> store.committed == store.rows[..lastCommit])
  }

  /** The state of the scan after the first `i` files of the walk: the rows and the count they
      contribute, and the batching state. */
  predicate Scanned(disk: seq<DiskFile>, i: nat, store: Store, processed: set<string>, start: seq<Row>, c0: int,
                    count: int, committed0: seq<Row>, batchCount: nat, lastCommit: nat, flushed: bool)
    reads store
  {
    && i <= |disk|
    && store.rows == start + CollectRows(disk[..i], processed, store.hasIgnorado)
    && count == c0 + Considered(disk[..i], processed)
    && Batched(store, start, committed0, batchCount, lastCommit, flushed)
  }

  /** `collect_metadata_to_db`: appends one row per candidate file whose extraction succeeds,
      counts every candidate once whether or not it succeeds, keeps fewer than `BATCH_SIZE`
      counted files uncommitted after each file, and commits everything on return. */
  method CollectMetadataToDb(disk: seq<DiskFile>, store: Store, processed: set<string>, startCount: int)
    returns (count: int)
    modifies store`rows, store`committed
    ensures store.rows == old(store.rows) + CollectRows(disk, processed, store.hasIgnorado)
    ensures store.committed == store.rows
    ensures count == startCount + Considered(disk, processed)
  {
    ghost var start, hasIgnorado := store.rows, store.hasIgnorado;
    count := startCount;
    var batchCount := 0;
    ghost var lastCommit: nat, flushed := |start|, false;
    var i := 0;
    while i < |disk|
      invariant 0 <= i <= |disk| && store.hasIgnorado == hasIgnorado
      invariant Scanned(disk, i, store, processed, start, startCount, count, old(store.committed), batchCount, lastCommit, flushed)
    {
      count, batchCount, lastCommit, flushed :=
        ScanStep(disk, i, store, processed, start, startCount, count, old(store.committed), batchCount, lastCommit, flushed);
      i := i + 1;
    }
    ScanComplete(disk, store, processed, start, startCount, count, old(store.committed), batchCount, lastCommit, flushed);
    store.Commit();
  }

  /** At the end of the walk the scan state covers the whole walk. */
  lemma ScanComplete(disk: seq<DiskFile>, store: Store, processed: set<string>, start: seq<Row>, c0: int,
                     count: int, committed0: seq<Row>, batchCount: nat, lastCommit: nat, flushed: bool)
    requires Scanned(disk, |disk|, store, processed, start, c0, count, committed0, batchCount, lastCommit, flushed)
    ensures store.rows == start + CollectRows(disk, processed, store.hasIgnorado)
    ensures count == c0 + Considered(disk, processed)
  {
    assert disk[..|disk|] == disk;
  }

  /** One iteration of the scan loop, for the `i`-th file of the walk: the table and the count
      grow by what that file contributes, and the batching state is kept. */
  method ScanStep(disk: seq<DiskFile>, i: nat, store: Store, processed: set<string>,
                  ghost start: seq<Row>, ghost c0: int, count: int, ghost committed0: seq<Row>,
                  batchCount: nat, ghost lastCommit: nat, ghost flushed: bool)
    returns (count': int, batchCount': nat, ghost lastCommit': nat, ghost flushed': bool)
    requires i < |disk|
    requires Scanned(disk, i, store, processed, start, c0, count, committed0, batchCount, lastCommit, flushed)
    modifies store`rows, store`committed
    ensures Scanned(disk, i + 1, store, processed, start, c0, count', committed0, batchCount', lastCommit', flushed')
  {
    ghost var before := store.rows;
    var counted := ScanFile(disk[i], store, processed);
    CollectStep(start, store.rows, disk, i, processed, store.hasIgnorado);
    ConsideredStep(c0, count + (if counted then 1 else 0), disk, i, processed);
    count' := if counted then count + 1 else count;
    batchCount', lastCommit', flushed' := CountInBatch(store, counted, batchCount, lastCommit, flushed, before, committed0);
  }

  /** `batch_count += 1` for a counted file, and `conn.commit()` once the batch reaches
      `BATCH_SIZE`: the rows beyond the last commit stay fewer than `BATCH_SIZE`. */
  method CountInBatch(store: Store, counted: bool, batchCount: nat, ghost lastCommit: nat, ghost flushed: bool,
                      ghost before: seq<Row>, ghost committed0: seq<Row>)
    returns (batchCount': nat, ghost lastCommit': nat, ghost flushed': bool)
    requires batchCount < BATCH_SIZE
    requires lastCommit <= |before| <= lastCommit + batchCount
    requires before <= store.rows && |store.rows| <= |before| + (if counted then 1 else 0)
    requires !flushed ==> store.committed == committed0
    requires flushed ==> store.committed == before[..lastCommit]
    modifies store`committed
    ensures batchCount' == if counted && batchCount + 1 == BATCH_SIZE then 0 else if counted then batchCount + 1 else batchCount
    ensures lastCommit <= lastCommit' <= |store.rows| <= lastCommit' + batchCount'
    ensures !flushed' ==> store.committed == committed0
    ensures flushed' ==> store.committed == store.rows[..lastCommit']
    ensures counted && batchCount + 1 == BATCH_SIZE ==> store.committed == store.rows
  {
    if counted && batchCount + 1 >= BATCH_SIZE {
      store.Commit();
      batchCount', lastCommit', flushed' := 0, |store.rows|, true;
    } else {
      batchCount', lastCommit', flushed' := if counted then batchCount + 1 else batchCount, lastCommit, flushed;
      if flushed {
        assert store.rows[..lastCommit] == before[..lastCommit];
      }
    }
  }

  /** The body of the scan loop for one file: skipped without counting unless it is a
      candidate; otherwise counted, and inserted when its extraction succeeds. */
  method ScanFile(f: DiskFile, store: Store, processed: set<string>) returns (counted: bool)
    modifies store`rows
    ensures counted == Candidate(f, processed)
    ensures store.rows == old(store.rows) + Inserted(f, processed, store.hasIgnorado)
    ensures |Inserted(f, processed, store.hasIgnorado)| <= (if counted then 1 else 0)
  {
    counted := Candidate(f, processed);
    if counted {
      var m := Probe(f);
      if m.Some? {
        store.InsertFile(m.value);
      }
    }
  }

  /** The appended rows are exactly the extracted candidates: each comes from a candidate file
      of the walk, and each candidate whose extraction succeeds contributes its row. */
  lemma {:induction false} CollectRowsSpec(disk: seq<DiskFile>, processed: set<string>, hasIgnorado: bool)
    ensures forall r :: r in CollectRows(disk, processed, hasIgnorado) ==>
      exists f :: f in disk && Candidate(f, processed) && Meta(f).Some? && r == NewRow(Meta(f).value, hasIgnorado)
    ensures forall f :: f in disk && Candidate(f, processed) && Meta(f).Some? ==>
      NewRow(Meta(f).value, hasIgnorado) in CollectRows(disk, processed, hasIgnorado)
  {
    if disk != [] {
      var init, last := disk[..|disk| - 1], disk[|disk| - 1];
      CollectRowsSpec(init, processed, hasIgnorado);
      assert disk == init + [last];
      forall r | r in CollectRows(disk, processed, hasIgnorado)
        ensures exists f :: f in disk && Candidate(f, processed) && Meta(f).Some? && r == NewRow(Meta(f).value, hasIgnorado)
      {
        if r in CollectRows(init, processed, hasIgnorado) {
          var f :| f in init && Candidate(f, processed) && Meta(f).Some? && r == NewRow(Meta(f).value, hasIgnorado);
          assert f in disk;
        } else {
          assert last in disk;
        }
      }
    }
  }

  /** Every appended row is a live, media-typed row for a path not processed before, flagged
      corrupted only under an image extension. */
  lemma CollectedRowsWellFormed(disk: seq<DiskFile>, processed: set<string>, hasIgnorado: bool)
    ensures forall r :: r in CollectRows(disk, processed, hasIgnorado) ==>
      && !r.deletado && IsMediaExt(r.ext) && r.path !in processed && (r.corrompida ==> r.ext in IMG_EXTS)
      && r.ignorado == (if hasIgnorado then Some(false) else None)
  {
    CollectRowsSpec(disk, processed, hasIgnorado);
  }

  /** No two files of a walk share a path. */
  predicate DistinctPaths(disk: seq<DiskFile>)
  {
    forall i, j :: 0 <= i < j < |disk| ==> disk[i].path != disk[j].path
  }

  /** Each appended row carries the path of a candidate file at some position of the walk. */
  lemma CollectedPathOrigin(disk: seq<DiskFile>, processed: set<string>, hasIgnorado: bool, y: Row)
    requires y in CollectRows(disk, processed, hasIgnorado)
    ensures exists j :: 0 <= j < |disk| && disk[j].path == y.path && Candidate(disk[j], processed)
  {
    CollectRowsSpec(disk, processed, hasIgnorado);
    var f :| f in disk && Candidate(f, processed) && Meta(f).Some? && y == NewRow(Meta(f).value, hasIgnorado);
    var j :| 0 <= j < |disk| && disk[j] == f;
  }

  /** Resuming with the catalogued paths as `processed` keeps one row per path. */
  lemma {:induction false} CollectKeepsPathsUnique(rows: seq<Row>, disk: seq<DiskFile>, hasIgnorado: bool)
    requires UniquePaths(rows) && DistinctPaths(disk)
    ensures UniquePaths(rows + CollectRows(disk, Paths(rows), hasIgnorado))
  {
    if disk != [] {
      var init, last := disk[..|disk| - 1], disk[|disk| - 1];
      assert DistinctPaths(init);
      CollectKeepsPathsUnique(rows, init, hasIgnorado);
      var before := rows + CollectRows(init, Paths(rows), hasIgnorado);
      var added := Inserted(last, Paths(rows), hasIgnorado);
      assert rows + CollectRows(disk, Paths(rows), hasIgnorado) == before + added;
      if added != [] {
        var x := added[0];
        assert x.path == last.path && last.path !in Paths(rows);
        forall k | 0 <= k < |before| ensures before[k].path != x.path {
          if k >= |rows| {
            var y := before[k];
            assert y in CollectRows(init, Paths(rows), hasIgnorado) by {
              assert y == CollectRows(init, Paths(rows), hasIgnorado)[k - |rows|];
            }
            CollectedPathOrigin(init, Paths(rows), hasIgnorado, y);
            var j :| 0 <= j < |init| && init[j].path == y.path;
            assert disk[j] == init[j] && j < |disk| - 1;
          } else {
            assert before[k] == rows[k] && rows[k] in rows;
          }
        }
        assert UniquePaths(before + [x]) by {
          forall a, b | 0 <= a < b < |before| + 1 ensures (before + [x])[a].path != (before + [x])[b].path {
            if b == |before| {
              assert (before + [x])[b] == x && (before + [x])[a] == before[a];
            } else {
              assert (before + [x])[a] == before[a] && (before + [x])[b] == before[b];
            }
          }
        }
      }
    }
  }

  /** Resuming over a walk whose media paths are all processed inserts and counts nothing. */
  lemma {:induction false} ResumeAddsNothing(disk: seq<DiskFile>, processed: set<string>, hasIgnorado: bool)
    requires forall f :: f in disk && IsMediaExt(Ext(f.name)) ==> f.path in processed
    ensures CollectRows(disk, processed, hasIgnorado) == [] && Considered(disk, processed) == 0
  {
    if disk != [] {
      var init := disk[..|disk| - 1];
      assert forall f :: f in init ==> f in disk;
      assert disk[|disk| - 1] in disk;
      ResumeAddsNothing(init, processed, hasIgnorado);
    }
  }

  // ---------------------------------------------------------------------------------
  // ask_reset_table (lines 133-159), mode mapping only

  datatype Mode = Full | Continue | Delta

  /** What `ask_reset_table` returns: the paths to skip, the count to start from, the mode. */
  datatype Resume = Resume(processed: set<string>, already: nat, mode: Mode)

  /** `ask_reset_table` given the line typed at the prompt; `None` where the program exits
      after an invalid choice. Option 1 deletes every row and commits. */
  method AskResetTable(store: Store, input: string) returns (r: Option<Resume>)
    modifies store`rows, store`committed
    ensures Strip(input) == "1" ==> store.rows == [] && store.committed == [] && r == Some(Resume({}, 0, Full))
    ensures Strip(input) == "2" ==>
      store.rows == old(store.rows) && store.committed == old(store.committed)
      && r == Some(Resume(Paths(store.rows), |store.rows|, Continue))
    ensures Strip(input) == "3" ==>
      store.rows == old(store.rows) && store.committed == old(store.committed)
      && r == Some(Resume(Paths(store.rows), |store.rows|, Delta))
    ensures Strip(input) !in {"1", "2", "3"} ==>
      r.None? && store.rows == old(store.rows) && store.committed == old(store.committed)
  {
    var choice := Strip(input);
    if choice == "1" {
      store.DeleteAll();
      store.Commit();
      r := Some(Resume({}, 0, Full));
    } else if choice == "2" {
      r := Some(Resume(Paths(store.rows), |store.rows|, Continue));
    } else if choice == "3" {
      r := Some(Resume(Paths(store.rows), |store.rows|, Delta));
    } else {
      r := None;
    }
  }

  // ---------------------------------------------------------------------------------
  // find_duplicates and list_files_by_key (lines 214-226)

  /** The rows `find_duplicates` groups: those with an extension in `exts`, or all rows when
      `exts` is `None` or empty. */
  function DuplicateScope(rows: seq<Row>, exts: seq<string>): seq<Row>
  {
    if exts == [] then rows else Counted(rows, exts, true, true)
  }

  /** `find_duplicates`: `(hash, tamanho, data_criacao, qtd)` for each key counted more than
      once, as a key and its count. */
  function FindDuplicates(rows: seq<Row>, exts: seq<string>): (d: seq<(Key, nat)>)
    ensures forall i :: 0 <= i < |d| ==> d[i].1 >= 2
  {
    var scope := DuplicateScope(rows, exts);
    var ks := Repeated(DistinctKeys(scope, true), scope, true);
    RepeatedSpec(DistinctKeys(scope, true), scope, true);
    assert forall i :: 0 <= i < |ks| ==> ks[i] in ks;
    seq(|ks|, i requires 0 <= i < |ks| => (ks[i], CountKey(scope, ks[i], true)))
  }

  /** Each reported key is reported once with its true count, which is at least 2, and every
      key that occurs at least twice in scope is reported. */
  lemma FindDuplicatesSpec(rows: seq<Row>, exts: seq<string>)
    ensures var d := FindDuplicates(rows, exts);
      && (forall i :: 0 <= i < |d| ==> d[i].1 == CountKey(DuplicateScope(rows, exts), d[i].0, true) >= 2)
      && (forall i, j :: 0 <= i < j < |d| ==> d[i].0 != d[j].0)
      && (forall k :: CountKey(DuplicateScope(rows, exts), k, true) >= 2 ==> exists i :: 0 <= i < |d| && d[i].0 == k)
  {
    var scope := DuplicateScope(rows, exts);
    var ks := Repeated(DistinctKeys(scope, true), scope, true);
    var d := FindDuplicates(rows, exts);
    DistinctKeysSpec(scope, true);
    RepeatedSpec(DistinctKeys(scope, true), scope, true);
    forall i | 0 <= i < |d| ensures d[i].1 == CountKey(scope, d[i].0, true) >= 2 {
      assert d[i].0 == ks[i] && ks[i] in ks;
    }
    forall i, j | 0 <= i < j < |d| ensures d[i].0 != d[j].0 {
      assert d[i].0 == ks[i] && d[j].0 == ks[j];
    }
    forall k | CountKey(scope, k, true) >= 2 ensures exists i :: 0 <= i < |d| && d[i].0 == k {
      CountKeyWitness(scope, k, true);
      assert HasKey(scope, k, true);
      var i :| 0 <= i < |ks| && ks[i] == k;
      assert d[i].0 == k;
    }
  }

  /** `list_files_by_key`: the rows with that hash, size and creation date. */
  function ListFilesByKey(rows: seq<Row>, hash: Digest, tamanho: int, data: string): (r: seq<Row>)
    ensures forall x :: x in r <==> x in rows && x.hash == hash && x.tamanho == tamanho && x.dataCriacao == data
  {
    MembersSpec(rows, Key(hash, tamanho, Some(data)), true, true, true);
    Members(rows, Key(hash, tamanho, Some(data)), true, true, true)
  }

  /** The member query returns as many rows as the key has. */
  lemma {:induction false} MembersCountKey(rows: seq<Row>, k: Key, byDate: bool)
    ensures |Members(rows, k, byDate, true, true)| == CountKey(rows, k, byDate)
  {
    if rows != [] {
      MembersCountKey(rows[1..], k, byDate);
    }
  }

  /** Listing a key that `find_duplicates` reported over all rows yields exactly its rows,
      as many as the reported count. */
  lemma ListMatchesFind(rows: seq<Row>, i: nat)
    requires i < |FindDuplicates(rows, [])|
    ensures var e := FindDuplicates(rows, [])[i];
      e.0.data.Some? &&
      var l := ListFilesByKey(rows, e.0.hash, e.0.tamanho, e.0.data.value);
      |l| == e.1 && forall x :: x in l <==> x in rows && KeyOf(x, true) == e.0
  {
    var e := FindDuplicates(rows, [])[i];
    FindDuplicatesSpec(rows, []);
    CountKeyWitness(rows, e.0, true);
    MembersCountKey(rows, e.0, true);
    MembersSpec(rows, e.0, true, true, true);
  }
}
