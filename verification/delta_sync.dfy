/** `update_only_changes` (encontra_repetidos_sqlite.py, lines 229-328): the delta sync that
    brings the catalogue in line with the disk. It deletes the rows of vanished paths, inserts
    the files it has no row for, and re-extracts a catalogued file only when its size or its
    freshly computed creation date differs from the row. It has no per-file error handling: the
    first `stat`, `open` or birth-time failure ends the run. */
module DeltaSync {
  import opened Wrappers
  import opened Catalog
  import opened Indexer

  /** A file the sync looks at: one whose lower-cased suffix is a media extension. */
  predicate IsMedia(f: DiskFile)
  {
    IsMediaExt(Ext(f.name))
  }

  /** `disk_paths`: the paths of the media files of the walk. */
  function DiskPaths(disk: seq<DiskFile>): set<string>
  {
    set f | f in disk && IsMedia(f) :: f.path
  }

  /** The table after the removal phase: the rows of `db_paths - disk_paths` deleted. */
  function Pruned(rows: seq<Row>, disk: seq<DiskFile>): seq<Row>
  {
    WithoutPaths(rows, Paths(rows) - DiskPaths(disk))
  }

  /** The removal phase keeps exactly the rows whose path is still on disk, so the catalogued
      paths become those of the table that are on disk. */
  lemma PrunedSpec(rows: seq<Row>, disk: seq<DiskFile>)
    ensures forall x :: x in Pruned(rows, disk) <==> x in rows && x.path in DiskPaths(disk)
    ensures Paths(Pruned(rows, disk)) == Paths(rows) * DiskPaths(disk)
  {
    var pruned := Pruned(rows, disk);
    forall p | p in Paths(rows) * DiskPaths(disk)
      ensures p in Paths(pruned)
    {
      var x :| x in rows && x.path == p;
      assert x in pruned;
    }
  }

  /** The fields a row keeps whatever the sync does to it. */
  predicate SameIdentity(x: Row, y: Row)
  {
    x.nome == y.nome && x.path == y.path && x.ext == y.ext && x.deletado == y.deletado && x.ignorado == y.ignorado
  }

  /** What the sync does with one file of the walk; `None` where it raises, which ends the run:
      `stat` fails, or, for a new file, `open` or the birth-time fallback fails, or, for a
      catalogued one, the birth-time fallback fails, or `open` fails once it has changed. */
  function SyncFile(rows: seq<Row>, f: DiskFile, hasIgnorado: bool): Option<seq<Row>>
  {
    if !IsMedia(f) then Some(rows)
    else if f.info.stat.None? then None
    else match FindRow(rows, f.path)
      case None =>
        if Meta(f).None? then None else Some(rows + [NewRow(Meta(f).value, hasIgnorado)])
      case Some(x) =>
        match CreationDate(DateExt(f.name), f.info)
        case None => None
        case Some(d) =>
          if x.tamanho == f.info.stat.value.size && x.dataCriacao == d then Some(rows)
          else if f.info.content.None? then None
          else Some(Refreshed(rows, f.path, f.info.stat.value.size, d, Sha256(f.info.content.value),
                              Ext(f.name) in IMG_EXTS && !f.info.verifies))
  }

  /** The walk phase over `disk`, file by file from `rows`; `None` once a file raises. */
  function SyncRows(rows: seq<Row>, disk: seq<DiskFile>, hasIgnorado: bool): Option<seq<Row>>
  {
    if disk == [] then Some(rows)
    else match SyncRows(rows, disk[..|disk| - 1], hasIgnorado)
      case None => None
      case Some(r) => SyncFile(r, disk[|disk| - 1], hasIgnorado)
  }

  /** One more file of the walk, when it succeeds. */
  lemma SyncStep(start: seq<Row>, rows: seq<Row>, disk: seq<DiskFile>, i: nat, hasIgnorado: bool)
    requires i < |disk|
    requires SyncRows(start, disk[..i], hasIgnorado) == Some(rows)
    ensures SyncRows(start, disk[..i + 1], hasIgnorado) == SyncFile(rows, disk[i], hasIgnorado)
  {
    assert disk[..i + 1][..i] == disk[..i] && disk[..i + 1][i] == disk[i];
  }

  /** Once a file raises, the run has failed, whatever follows it. */
  lemma {:induction false} SyncStops(start: seq<Row>, disk: seq<DiskFile>, i: nat, hasIgnorado: bool)
    requires i <= |disk|
    requires SyncRows(start, disk[..i], hasIgnorado).None?
    ensures SyncRows(start, disk, hasIgnorado).None?
    decreases |disk| - i
  {
    if i < |disk| {
      assert disk[..i + 1][..i] == disk[..i];
      SyncStops(start, disk, i + 1, hasIgnorado);
    } else {
      assert disk[..i] == disk;
    }
  }

  /** `disk_paths` over one more file of the walk. */
  lemma DiskPathsStep(disk: seq<DiskFile>, i: nat)
    requires i < |disk|
    ensures DiskPaths(disk[..i + 1]) == DiskPaths(disk[..i]) + (if IsMedia(disk[i]) then {disk[i].path} else {})
  {
    assert forall f :: f in disk[..i + 1] <==> f in disk[..i] || f == disk[i];
  }

  // ---------------------------------------------------------------------------------
  // The imperative sync

  /** The loop that builds `disk_paths` from the walk. */
  method CollectDiskPaths(disk: seq<DiskFile>) returns (paths: set<string>)
    ensures paths == DiskPaths(disk)
  {
    paths := {};
    for i := 0 to |disk|
      invariant paths == DiskPaths(disk[..i])
    {
      DiskPathsStep(disk, i);
      if IsMediaExt(Ext(disk[i].name)) {
        paths := paths + {disk[i].path};
      }
    }
    assert disk[..|disk|] == disk;
  }

  /** `for p in to_remove: DELETE FROM arquivos WHERE path=?`, in whatever order the set
      yields its paths. */
  method DeletePaths(store: Store, toRemove: set<string>)
    modifies store`rows
    ensures store.rows == WithoutPaths(old(store.rows), toRemove)
  {
    ghost var rows0 := store.rows;
    WithoutAbsentPaths(rows0, {});
    var remaining := toRemove;
    assert toRemove - remaining == {};
    while remaining != {}
      invariant remaining <= toRemove
      invariant store.rows == WithoutPaths(rows0, toRemove - remaining)
      decreases |remaining|
    {
      var p :| p in remaining;
      store.DeleteWherePath(p);
      WithoutPathsUnion(rows0, toRemove - remaining, {p});
      assert (toRemove - remaining) + {p} == toRemove - (remaining - {p});
      remaining := remaining - {p};
    }
    assert toRemove - remaining == toRemove;
  }

  /** The body of the walk loop for one file: the `SELECT` by path, then an insert, an update or
      nothing; `false` where the file raises, before anything is written. */
  method SyncOne(f: DiskFile, store: Store) returns (ok: bool)
    modifies store`rows
    ensures ok == SyncFile(old(store.rows), f, store.hasIgnorado).Some?
    ensures ok ==> store.rows == SyncFile(old(store.rows), f, store.hasIgnorado).value
    ensures !ok ==> store.rows == old(store.rows)
  {
    var ext := Ext(f.name);
    if !IsMediaExt(ext) {
      return true;
    }
    if f.info.stat.None? {
      return false;
    }
    var size := f.info.stat.value.size;
    var row := FindRow(store.rows, f.path);
    if row.None? {
      var m := Probe(f);
      if m.None? {
        return false;
      }
      store.InsertFile(m.value);
      return true;
    }
    var d := CreationDate(DateExt(f.name), f.info);
    if d.None? {
      return false;
    }
    if row.value.tamanho != size || row.value.dataCriacao != d.value {
      var corrupted := false;
      if ext in IMG_EXTS {
        corrupted := !f.info.verifies;
      }
      if f.info.content.None? {
        return false;
      }
      var h := FileHash(f.info.content.value, 8192);
      store.UpdateWherePath(f.path, size, d.value, h, corrupted);
    }
    return true;
  }

  /** The removal phase: the rows of `db_paths - disk_paths` deleted, and a commit when there
      were any. */
  method RemoveVanished(disk: seq<DiskFile>, store: Store)
    modifies store`rows, store`committed
    ensures store.rows == Pruned(old(store.rows), disk)
    ensures store.committed == if Paths(old(store.rows)) <= DiskPaths(disk) then old(store.committed) else store.rows
  {
    var diskPaths := CollectDiskPaths(disk);
    var toRemove := Paths(store.rows) - diskPaths;
    if toRemove != {} {
      DeletePaths(store, toRemove);
      store.Commit();
    } else {
      WithoutAbsentPaths(store.rows, toRemove);
    }
  }

  /** The walk phase: the files in walk order until one raises; `false` at the first that
      does, the rows it leaves being the ones written before it. Commits nothing. */
  method SyncWalk(disk: seq<DiskFile>, store: Store) returns (ok: bool)
    modifies store`rows
    ensures ok == SyncRows(old(store.rows), disk, store.hasIgnorado).Some?
    ensures ok ==> store.rows == SyncRows(old(store.rows), disk, store.hasIgnorado).value
  {
    ghost var start := store.rows;
    var i := 0;
    while i < |disk|
      invariant 0 <= i <= |disk|
      invariant SyncRows(start, disk[..i], store.hasIgnorado) == Some(store.rows)
    {
      ghost var before := store.rows;
      ok := SyncOne(disk[i], store);
      SyncStep(start, before, disk, i, store.hasIgnorado);
      if !ok {
        SyncStops(start, disk, i + 1, store.hasIgnorado);
        return;
      }
      i := i + 1;
    }
    assert disk[..i] == disk;
    ok := true;
  }

  /** `update_only_changes`. On success the table is the walk phase run over the pruned table,
      and everything is committed. When a file raises, only the removal phase has been
      committed (the commit after the deletions runs only when there was something to delete). */
  method UpdateOnlyChanges(disk: seq<DiskFile>, store: Store) returns (ok: bool)
    modifies store`rows, store`committed
    ensures ok == SyncRows(Pruned(old(store.rows), disk), disk, store.hasIgnorado).Some?
    ensures ok ==> store.committed == store.rows == SyncRows(Pruned(old(store.rows), disk), disk, store.hasIgnorado).value
    ensures !ok ==> store.committed == (if Paths(old(store.rows)) <= DiskPaths(disk) then old(store.committed) else Pruned(old(store.rows), disk))
  {
    RemoveVanished(disk, store);
    ok := SyncWalk(disk, store);
    if ok {
      store.Commit();
    }
  }

  // ---------------------------------------------------------------------------------
  // What the sync guarantees

  /** Refreshing rows never changes the set of catalogued paths. */
  lemma {:induction false} RefreshedPaths(rows: seq<Row>, p: string, tamanho: int, data: string, hash: Digest, corrompida: bool)
    ensures Paths(Refreshed(rows, p, tamanho, data, hash, corrompida)) == Paths(rows)
  {
    var r := Refreshed(rows, p, tamanho, data, hash, corrompida);
    forall q | q in Paths(rows) ensures q in Paths(r) {
      var i :| 0 <= i < |rows| && rows[i].path == q;
      assert r[i].path == q;
    }
    forall q | q in Paths(r) ensures q in Paths(rows) {
      var i :| 0 <= i < |r| && r[i].path == q;
      assert rows[i].path == q;
    }
  }

  /** Each file adds its path to the catalogue when it is a media file, and nothing else. */
  lemma SyncFilePaths(rows: seq<Row>, f: DiskFile, hasIgnorado: bool)
    requires SyncFile(rows, f, hasIgnorado).Some?
    ensures Paths(SyncFile(rows, f, hasIgnorado).value) == Paths(rows) + (if IsMedia(f) then {f.path} else {})
  {
    var r := SyncFile(rows, f, hasIgnorado).value;
    SyncFileIdentity(rows, f, hasIgnorado);
    forall q | q in Paths(rows) ensures q in Paths(r) {
      var i :| 0 <= i < |rows| && rows[i].path == q;
      assert r[i].path == q;
    }
    forall q | q in Paths(r) ensures q in Paths(rows) + (if IsMedia(f) then {f.path} else {}) {
      var i :| 0 <= i < |r| && r[i].path == q;
      if i < |rows| {
        assert rows[i].path == q;
      }
    }
    if IsMedia(f) {
      if |r| == |rows| {
        assert f.path in Paths(rows);
      } else {
        assert r[|rows|] in r;
      }
    }
  }

  /** A successful walk phase adds exactly the media paths of the walk. */
  lemma {:induction false} SyncRowsPaths(start: seq<Row>, disk: seq<DiskFile>, hasIgnorado: bool)
    requires SyncRows(start, disk, hasIgnorado).Some?
    ensures Paths(SyncRows(start, disk, hasIgnorado).value) == Paths(start) + DiskPaths(disk)
  {
    if disk != [] {
      var n := |disk| - 1;
      var prev := SyncRows(start, disk[..n], hasIgnorado);
      SyncRowsPaths(start, disk[..n], hasIgnorado);
      SyncFilePaths(prev.value, disk[n], hasIgnorado);
      assert disk[..n + 1] == disk;
      DiskPathsStep(disk, n);
    }
  }

  /** After a successful sync the catalogued paths are exactly the media paths on disk. */
  lemma SyncPathsEqualDisk(rows: seq<Row>, disk: seq<DiskFile>, hasIgnorado: bool)
    requires SyncRows(Pruned(rows, disk), disk, hasIgnorado).Some?
    ensures Paths(SyncRows(Pruned(rows, disk), disk, hasIgnorado).value) == DiskPaths(disk)
  {
    PrunedSpec(rows, disk);
    SyncRowsPaths(Pruned(rows, disk), disk, hasIgnorado);
  }

  /** A file never adds a second row for a path: it inserts only when the path is absent. */
  lemma SyncFileUnique(rows: seq<Row>, f: DiskFile, hasIgnorado: bool)
    requires UniquePaths(rows) && SyncFile(rows, f, hasIgnorado).Some?
    ensures UniquePaths(SyncFile(rows, f, hasIgnorado).value)
  {
    var r := SyncFile(rows, f, hasIgnorado).value;
    SyncFileIdentity(rows, f, hasIgnorado);
    forall i, j | 0 <= i < j < |r| ensures r[i].path != r[j].path {
      if j >= |rows| {
        assert rows[i] in rows;
      }
    }
  }

  /** The sync keeps paths unique: it maintains the invariant the schema does not enforce. */
  lemma {:induction false} SyncKeepsPathsUnique(start: seq<Row>, disk: seq<DiskFile>, hasIgnorado: bool)
    requires UniquePaths(start) && SyncRows(start, disk, hasIgnorado).Some?
    ensures UniquePaths(SyncRows(start, disk, hasIgnorado).value)
  {
    if disk != [] {
      var n := |disk| - 1;
      SyncKeepsPathsUnique(start, disk[..n], hasIgnorado);
      SyncFileUnique(SyncRows(start, disk[..n], hasIgnorado).value, disk[n], hasIgnorado);
    }
  }

  /** Refreshing rows keeps their identity. */
  lemma RefreshedIdentity(rows: seq<Row>, p: string, tamanho: int, data: string, hash: Digest, corrompida: bool)
    ensures var r := Refreshed(rows, p, tamanho, data, hash, corrompida);
      |r| == |rows| && forall i :: 0 <= i < |rows| ==> SameIdentity(r[i], rows[i])
  {
  }

  lemma AppendIdentity(rows: seq<Row>, x: Row)
    ensures forall i :: 0 <= i < |rows| ==> SameIdentity((rows + [x])[i], rows[i])
  {
  }

  /** One file keeps every existing row's name, path, extension and flags, and a row it adds
      is a fresh, non-deleted row for a path the table did not have. */
  lemma SyncFileIdentity(rows: seq<Row>, f: DiskFile, hasIgnorado: bool)
    requires SyncFile(rows, f, hasIgnorado).Some?
    ensures |rows| <= |SyncFile(rows, f, hasIgnorado).value| <= |rows| + 1
    ensures forall i :: 0 <= i < |rows| ==> SameIdentity(SyncFile(rows, f, hasIgnorado).value[i], rows[i])
    ensures forall i :: |rows| <= i < |SyncFile(rows, f, hasIgnorado).value| ==>
      !SyncFile(rows, f, hasIgnorado).value[i].deletado && SyncFile(rows, f, hasIgnorado).value[i].path == f.path
    ensures |SyncFile(rows, f, hasIgnorado).value| > |rows| ==> f.path !in Paths(rows)
    ensures |SyncFile(rows, f, hasIgnorado).value| == |rows| && IsMedia(f) ==> f.path in Paths(rows)
  {
    var r := SyncFile(rows, f, hasIgnorado).value;
    if IsMedia(f) {
      match FindRow(rows, f.path)
      case None =>
        assert r == rows + [NewRow(Meta(f).value, hasIgnorado)];
        AppendIdentity(rows, NewRow(Meta(f).value, hasIgnorado));
      case Some(x) =>
        var d, size := CreationDate(DateExt(f.name), f.info).value, f.info.stat.value.size;
        if x.tamanho == size && x.dataCriacao == d {
          assert r == rows;
        } else {
          RefreshedIdentity(rows, f.path, size, d, Sha256(f.info.content.value), Ext(f.name) in IMG_EXTS && !f.info.verifies);
        }
    }
  }

  /** The sync never touches `nome`, `path`, `ext`, `deletado` or `ignorado` of a row it keeps,
      and every row it adds is not deleted. */
  lemma {:induction false} SyncKeepsIdentity(start: seq<Row>, disk: seq<DiskFile>, hasIgnorado: bool)
    requires SyncRows(start, disk, hasIgnorado).Some?
    ensures var r := SyncRows(start, disk, hasIgnorado).value;
      |start| <= |r|
      && (forall i :: 0 <= i < |start| ==> SameIdentity(r[i], start[i]))
      && (forall i :: |start| <= i < |r| ==> !r[i].deletado)
  {
    if disk != [] {
      var n := |disk| - 1;
      var prev := SyncRows(start, disk[..n], hasIgnorado).value;
      SyncKeepsIdentity(start, disk[..n], hasIgnorado);
      SyncFileIdentity(prev, disk[n], hasIgnorado);
    }
  }

  /** The three outcomes for one media file: a path without a row gets its extracted row
      appended; a catalogued path whose size and fresh date match gets no write; otherwise
      every row with that path gets its size, date, hash and corruption flag rewritten
      together, and no other row changes. */
  lemma SyncFileOutcomes(rows: seq<Row>, f: DiskFile, hasIgnorado: bool)
    requires IsMedia(f) && SyncFile(rows, f, hasIgnorado).Some?
    ensures f.info.stat.Some?
    ensures var r := SyncFile(rows, f, hasIgnorado).value;
      f.path !in Paths(rows) ==> Meta(f).Some? && r == rows + [NewRow(Meta(f).value, hasIgnorado)]
    ensures var r := SyncFile(rows, f, hasIgnorado).value;
      f.path in Paths(rows) ==>
        var x, size, d := FindRow(rows, f.path).value, f.info.stat.value.size, CreationDate(DateExt(f.name), f.info);
        d.Some?
        && (x.tamanho == size && x.dataCriacao == d.value ==> r == rows)
        && (x.tamanho != size || x.dataCriacao != d.value ==>
              f.info.content.Some? && |r| == |rows|
              && forall i :: 0 <= i < |rows| ==>
                   r[i] == if rows[i].path == f.path
                           then Refresh(rows[i], size, d.value, Sha256(f.info.content.value), Ext(f.name) in IMG_EXTS && !f.info.verifies)
                           else rows[i])
  {
  }

  // ---------------------------------------------------------------------------------
  // A second sync writes nothing

  /** The catalogue holds a file's current size and creation date under its path. */
  predicate UpToDate(rows: seq<Row>, f: DiskFile)
  {
    IsMedia(f) ==>
      && f.info.stat.Some? && CreationDate(DateExt(f.name), f.info).Some?
      && FindRow(rows, f.path).Some?
      && FindRow(rows, f.path).value.tamanho == f.info.stat.value.size
      && FindRow(rows, f.path).value.dataCriacao == CreationDate(DateExt(f.name), f.info).value
  }

  /** An up-to-date file is left alone. */
  lemma UpToDateNoWrite(rows: seq<Row>, f: DiskFile, hasIgnorado: bool)
    requires UpToDate(rows, f)
    ensures SyncFile(rows, f, hasIgnorado) == Some(rows)
  {
  }

  /** Refreshing the rows of one path leaves the lookup of any other path alone, and makes
      the lookup of that path see the new values. */
  lemma {:induction false} FindRowRefreshed(rows: seq<Row>, p: string, q: string, tamanho: int, data: string, hash: Digest, corrompida: bool)
    ensures var r := FindRow(Refreshed(rows, p, tamanho, data, hash, corrompida), q);
      if q == p then r == (if p in Paths(rows) then Some(Refresh(FindRow(rows, p).value, tamanho, data, hash, corrompida)) else None)
      else r == FindRow(rows, q)
  {
    if rows != [] {
      var r := Refreshed(rows, p, tamanho, data, hash, corrompida);
      assert r[1..] == Refreshed(rows[1..], p, tamanho, data, hash, corrompida);
      FindRowRefreshed(rows[1..], p, q, tamanho, data, hash, corrompida);
      PathsCons(rows);
    }
  }

  /** Syncing a file leaves it up to date. */
  lemma SyncFileUpToDate(rows: seq<Row>, f: DiskFile, hasIgnorado: bool)
    requires SyncFile(rows, f, hasIgnorado).Some?
    ensures UpToDate(SyncFile(rows, f, hasIgnorado).value, f)
  {
    if IsMedia(f) {
      var x := FindRow(rows, f.path);
      if x.None? {
        FindRowAppend(rows, NewRow(Meta(f).value, hasIgnorado), f.path);
      } else {
        var d := CreationDate(DateExt(f.name), f.info).value;
        var size := f.info.stat.value.size;
        if !(x.value.tamanho == size && x.value.dataCriacao == d) {
          FindRowRefreshed(rows, f.path, f.path, size, d, Sha256(f.info.content.value), Ext(f.name) in IMG_EXTS && !f.info.verifies);
        }
      }
    }
  }

  /** Syncing a file with another path keeps a file up to date. */
  lemma SyncFileKeepsUpToDate(rows: seq<Row>, g: DiskFile, f: DiskFile, hasIgnorado: bool)
    requires UpToDate(rows, f) && g.path != f.path && SyncFile(rows, g, hasIgnorado).Some?
    ensures UpToDate(SyncFile(rows, g, hasIgnorado).value, f)
  {
    if IsMedia(g) {
      var x := FindRow(rows, g.path);
      if x.None? {
        FindRowAppend(rows, NewRow(Meta(g).value, hasIgnorado), f.path);
      } else {
        var d := CreationDate(DateExt(g.name), g.info).value;
        var size := g.info.stat.value.size;
        if !(x.value.tamanho == size && x.value.dataCriacao == d) {
          FindRowRefreshed(rows, g.path, f.path, size, d, Sha256(g.info.content.value), Ext(g.name) in IMG_EXTS && !g.info.verifies);
        }
      }
    }
  }

  /** After a successful walk phase over files with distinct paths, every file is up to date. */
  lemma {:induction false} SyncRowsUpToDate(start: seq<Row>, disk: seq<DiskFile>, hasIgnorado: bool)
    requires DistinctPaths(disk) && SyncRows(start, disk, hasIgnorado).Some?
    ensures forall f :: f in disk ==> UpToDate(SyncRows(start, disk, hasIgnorado).value, f)
  {
    if disk != [] {
      var n := |disk| - 1;
      var prev := SyncRows(start, disk[..n], hasIgnorado).value;
      var r := SyncFile(prev, disk[n], hasIgnorado).value;
      assert DistinctPaths(disk[..n]) by {
        forall i, j | 0 <= i < j < n ensures disk[..n][i].path != disk[..n][j].path {
          assert disk[..n][i] == disk[i] && disk[..n][j] == disk[j];
        }
      }
      SyncRowsUpToDate(start, disk[..n], hasIgnorado);
      forall f | f in disk ensures UpToDate(r, f) {
        var k :| 0 <= k < |disk| && disk[k] == f;
        if k == n {
          SyncFileUpToDate(prev, disk[n], hasIgnorado);
        } else {
          assert disk[..n][k] == f;
          SyncFileKeepsUpToDate(prev, disk[n], f, hasIgnorado);
        }
      }
    }
  }

  /** Over up-to-date files the walk phase writes nothing. */
  lemma {:induction false} SyncRowsNoWrite(rows: seq<Row>, disk: seq<DiskFile>, hasIgnorado: bool)
    requires forall f :: f in disk ==> UpToDate(rows, f)
    ensures SyncRows(rows, disk, hasIgnorado) == Some(rows)
  {
    if disk != [] {
      var n := |disk| - 1;
      assert forall f :: f in disk[..n] ==> f in disk;
      SyncRowsNoWrite(rows, disk[..n], hasIgnorado);
      UpToDateNoWrite(rows, disk[n], hasIgnorado);
    }
  }

  /** Running the delta sync a second time over the same disk deletes, inserts and rewrites
      nothing. */
  lemma SecondSyncWritesNothing(rows: seq<Row>, disk: seq<DiskFile>, hasIgnorado: bool)
    requires DistinctPaths(disk) && SyncRows(Pruned(rows, disk), disk, hasIgnorado).Some?
    ensures var r := SyncRows(Pruned(rows, disk), disk, hasIgnorado).value;
      Pruned(r, disk) == r && SyncRows(r, disk, hasIgnorado) == Some(r)
  {
    var r := SyncRows(Pruned(rows, disk), disk, hasIgnorado).value;
    SyncPathsEqualDisk(rows, disk, hasIgnorado);
    WithoutAbsentPaths(r, Paths(r) - DiskPaths(disk));
    SyncRowsUpToDate(Pruned(rows, disk), disk, hasIgnorado);
    SyncRowsNoWrite(r, disk, hasIgnorado);
  }
}
