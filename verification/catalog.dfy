/** The SQLite table `arquivos` (encontra_repetidos_sqlite.py, lines 95-124): one row per
    indexed file, kept in insertion (rowid) order. Nothing in the schema makes `path` unique;
    uniqueness is a property the scans maintain (see `UniquePaths`). */
module Catalog {
  import opened Wrappers

  type byte = bv8

  /** A SHA-256 digest, identified with the bytes it was computed from (collision-free). */
  datatype Digest = Sha256(data: seq<byte>)

  /** The extension lists of `file_exts`, which is not part of this model: representative
      lower-case suffixes standing for the real lists. */
  const IMG_EXTS: seq<string> := [".jpg", ".jpeg", ".png", ".gif", ".bmp", ".tiff", ".webp", ".heic"]
  const VIDEO_EXTS: seq<string> := [".mp4", ".mov", ".avi", ".mkv", ".wmv", ".m4v", ".3gp"]
  const DOC_EXTS: seq<string> := [".pdf", ".doc", ".docx", ".xls", ".xlsx", ".ppt", ".pptx", ".txt"]

  /** Files committed per batch by the full scan. */
  const BATCH_SIZE: nat := 200

  predicate IsMediaExt(ext: string)
  {
    ext in IMG_EXTS || ext in VIDEO_EXTS || ext in DOC_EXTS
  }

  datatype Row = Row(
    nome: string,
    path: string,
    hash: Digest,
    tamanho: int,
    dataCriacao: string,
    corrompida: bool,
    ext: string,
    deletado: bool,
    ignorado: Option<bool>)   // None: SQL NULL, or the column does not exist yet

  /** The `info` record `insert_file` receives. */
  datatype FileMeta = FileMeta(
    nome: string, path: string, hash: Digest, tamanho: int,
    dataCriacao: string, corrompida: bool, ext: string)

  /** The row `insert_file` writes: `deletado` is always false and `ignorado` takes the
      column default (0) when the column exists. */
  function NewRow(info: FileMeta, hasIgnorado: bool): (r: Row)
    ensures !r.deletado && r.nome == info.nome && r.path == info.path && r.ext == info.ext && r.tamanho == info.tamanho
    ensures r.hash == info.hash && r.dataCriacao == info.dataCriacao && r.corrompida == info.corrompida
    ensures r.ignorado == (if hasIgnorado then Some(false) else None)
  {
    Row(info.nome, info.path, info.hash, info.tamanho, info.dataCriacao, info.corrompida,
        info.ext, false, if hasIgnorado then Some(false) else None)
  }

  /** `get_existing_paths`: the set of catalogued paths. */
  function Paths(rows: seq<Row>): (ps: set<string>)
    ensures forall i :: 0 <= i < |rows| ==> rows[i].path in ps
  {
    set r | r in rows :: r.path
  }

  /** Every path in the set is the path of some row. */
  lemma PathsOrigin(rows: seq<Row>, p: string)
    requires p in Paths(rows)
    ensures exists i :: 0 <= i < |rows| && rows[i].path == p
  {
    var r :| r in rows && r.path == p;
    var i :| 0 <= i < |rows| && rows[i] == r;
  }

  predicate UniquePaths(rows: seq<Row>)
  {
    forall i, j :: 0 <= i < j < |rows| ==> rows[i].path != rows[j].path
  }

  /** `SELECT ... WHERE path=?` followed by `fetchone()`: the first row with that path. */
  function FindRow(rows: seq<Row>, p: string): (r: Option<Row>)
    ensures r.None? <==> p !in Paths(rows)
    ensures r.Some? ==> r.value in rows && r.value.path == p
    ensures rows != [] && rows[0].path == p ==> r == Some(rows[0])
    ensures forall i :: 0 <= i < |rows| && rows[i].path == p && NoPathBefore(rows, i, p) ==> r == Some(rows[i])
  {
    if rows == [] then None
    else if rows[0].path == p then Some(rows[0])
    else
      PathsCons(rows);
      var r := FindRow(rows[1..], p);
      FindRowSkip(rows, p, r);
      r
  }

  lemma PathsCons(rows: seq<Row>)
    requires rows != []
    ensures Paths(rows) == {rows[0].path} + Paths(rows[1..])
  {
    assert forall r :: r in rows <==> r == rows[0] || r in rows[1..];
  }

  /** No row before position `i` has path `p`. */
  predicate NoPathBefore(rows: seq<Row>, i: int, p: string)
    requires 0 <= i <= |rows|
  {
    forall j :: 0 <= j < i ==> rows[j].path != p
  }

  /** The first row with path `p` lies past a head with another path. */
  lemma FindRowSkip(rows: seq<Row>, p: string, r: Option<Row>)
    requires rows != [] && rows[0].path != p
    requires forall i :: 0 <= i < |rows[1..]| && rows[1..][i].path == p && NoPathBefore(rows[1..], i, p) ==> r == Some(rows[1..][i])
    ensures forall i :: 0 <= i < |rows| && rows[i].path == p && NoPathBefore(rows, i, p) ==> r == Some(rows[i])
  {
    forall i | 0 <= i < |rows| && rows[i].path == p && NoPathBefore(rows, i, p) ensures r == Some(rows[i]) {
      assert i > 0;
      assert forall j :: 0 <= j < i - 1 ==> rows[1..][j] == rows[j + 1];
      assert NoPathBefore(rows[1..], i - 1, p);
      assert rows[1..][i - 1] == rows[i];
    }
  }

  /** Appending a row never changes which row a lookup finds for a path already present. */
  lemma {:induction false} FindRowAppend(rows: seq<Row>, x: Row, p: string)
    ensures FindRow(rows + [x], p) == if p in Paths(rows) then FindRow(rows, p) else if x.path == p then Some(x) else None
  {
    if rows == [] {
      assert rows + [x] == [x];
      assert [x][1..] == [];
    } else {
      assert (rows + [x])[1..] == rows[1..] + [x];
      PathsCons(rows);
      FindRowAppend(rows[1..], x, p);
    }
  }

  /** `DELETE FROM arquivos WHERE path=?`, for every path of `gone`. */
  function WithoutPaths(rows: seq<Row>, gone: set<string>): (r: seq<Row>)
    ensures |r| <= |rows|
    ensures forall x :: x in r <==> x in rows && x.path !in gone
  {
    if rows == [] then []
    else (if rows[0].path in gone then [] else [rows[0]]) + WithoutPaths(rows[1..], gone)
  }

  /** Deleting one set of paths after another is deleting their union. */
  lemma {:induction false} WithoutPathsUnion(rows: seq<Row>, a: set<string>, b: set<string>)
    ensures WithoutPaths(WithoutPaths(rows, a), b) == WithoutPaths(rows, a + b)
  {
    if rows != [] {
      var h, t := rows[0], rows[1..];
      WithoutPathsUnion(t, a, b);
      var keepB: seq<Row> := if h.path in b then [] else [h];
      if h.path in a {
        assert WithoutPaths(rows, a) == WithoutPaths(t, a);
        assert WithoutPaths(rows, a + b) == WithoutPaths(t, a + b);
      } else {
        var wa := WithoutPaths(rows, a);
        assert wa == [h] + WithoutPaths(t, a);
        assert wa[0] == h && wa[1..] == WithoutPaths(t, a);
        assert WithoutPaths(wa, b) == keepB + WithoutPaths(WithoutPaths(t, a), b);
        assert WithoutPaths(rows, a + b) == keepB + WithoutPaths(t, a + b);
      }
    }
  }

  /** Deleting paths that are not catalogued changes nothing. */
  lemma {:induction false} WithoutAbsentPaths(rows: seq<Row>, gone: set<string>)
    requires gone !! Paths(rows)
    ensures WithoutPaths(rows, gone) == rows
  {
    if rows != [] {
      PathsCons(rows);
      WithoutAbsentPaths(rows[1..], gone);
      assert rows == [rows[0]] + rows[1..];
    }
  }

  /** A row whose content fields are rewritten by the delta sync. */
  function Refresh(r: Row, tamanho: int, data: string, hash: Digest, corrompida: bool): Row
  {
    r.(tamanho := tamanho, dataCriacao := data, hash := hash, corrompida := corrompida)
  }

  /** `UPDATE arquivos SET tamanho=?, data_criacao=?, hash=?, corrompida=? WHERE path=?`. */
  function Refreshed(rows: seq<Row>, p: string, tamanho: int, data: string, hash: Digest, corrompida: bool): (r: seq<Row>)
    ensures |r| == |rows|
    ensures forall i :: 0 <= i < |rows| ==>
      r[i] == if rows[i].path == p then Refresh(rows[i], tamanho, data, hash, corrompida) else rows[i]
  {
    if rows == [] then []
    else [if rows[0].path == p then Refresh(rows[0], tamanho, data, hash, corrompida) else rows[0]]
         + Refreshed(rows[1..], p, tamanho, data, hash, corrompida)
  }

  class Store {
    /** The rows as the connection sees them, uncommitted writes included. */
    var rows: seq<Row>
    /** The rows as of the last `commit()`: what survives the process. */
    var committed: seq<Row>
    /** Whether the `ignorado` column exists (it is added by a later migration). */
    var hasIgnorado: bool

    /** `create_table` on a fresh database: the table without the `ignorado` column. */
    constructor CreateTable()
      ensures rows == [] && committed == [] && !hasIgnorado
    {
      rows := [];
      committed := [];
      hasIgnorado := false;
    }

    /** `conn.commit()`. */
    method Commit()
      modifies this`committed
      ensures committed == rows
    {
      committed := rows;
    }

    /** `insert_file`. */
    method InsertFile(info: FileMeta)
      modifies this`rows
      ensures rows == old(rows) + [NewRow(info, hasIgnorado)]
    {
      rows := rows + [NewRow(info, hasIgnorado)];
    }

    /** `DELETE FROM arquivos WHERE path=?`. */
    method DeleteWherePath(p: string)
      modifies this`rows
      ensures rows == WithoutPaths(old(rows), {p})
    {
      rows := WithoutPaths(rows, {p});
    }

    /** `UPDATE arquivos SET tamanho=?, data_criacao=?, hash=?, corrompida=? WHERE path=?`. */
    method UpdateWherePath(p: string, tamanho: int, data: string, hash: Digest, corrompida: bool)
      modifies this`rows
      ensures rows == Refreshed(old(rows), p, tamanho, data, hash, corrompida)
    {
      rows := Refreshed(rows, p, tamanho, data, hash, corrompida);
    }

    /** `DELETE FROM arquivos`. */
    method DeleteAll()
      modifies this`rows
      ensures rows == []
    {
      rows := [];
    }
  }
}
