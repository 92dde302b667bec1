/** Catalog operations of db_utils.py: the `ignorado` migration, the two soft flags, the
    deleted-file aggregates, the corrupted-file query and the duplicate-group query. */
module DbUtils {
  import opened Wrappers
  import opened Catalog

  // ---------------------------------------------------------------------------------
  // Schema migration and soft flags

  /** `ignorado` read through `IFNULL(ignorado, 0)`: true only for a stored 1. */
  predicate IsIgnored(r: Row)
  {
    r.ignorado == Some(true)
  }

  /** Every row with the value the new column's `DEFAULT 0` gives it. */
  function WithIgnoradoDefault(rows: seq<Row>): (r: seq<Row>)
    ensures |r| == |rows|
    ensures forall i :: 0 <= i < |rows| ==> r[i] == rows[i].(ignorado := Some(false))
  {
    seq(|rows|, i requires 0 <= i < |rows| => rows[i].(ignorado := Some(false)))
  }

  /** `ensure_ignorado_column`: adds the column (default 0) only when it is absent, and commits
      only then; a second call changes nothing. */
  method EnsureIgnoradoColumn(store: Store)
    modifies store
    ensures store.hasIgnorado
    ensures old(store.hasIgnorado) ==> store.rows == old(store.rows) && store.committed == old(store.committed)
    ensures !old(store.hasIgnorado) ==> store.rows == WithIgnoradoDefault(old(store.rows)) && store.committed == store.rows
  {
    if !store.hasIgnorado {
      store.hasIgnorado := true;
      store.rows := WithIgnoradoDefault(store.rows);
      store.Commit();
    }
  }

  /** `NOT IFNULL(ignorado, 0)`. */
  function Toggle(r: Row): Row
  {
    r.(ignorado := Some(!IsIgnored(r)))
  }

  /** `UPDATE arquivos SET ignorado = NOT IFNULL(ignorado,0) WHERE path=?`. */
  function ToggledIgnorado(rows: seq<Row>, p: string): (r: seq<Row>)
    ensures |r| == |rows|
    ensures forall i :: 0 <= i < |rows| ==> r[i] == if rows[i].path == p then Toggle(rows[i]) else rows[i]
  {
    seq(|rows|, i requires 0 <= i < |rows| => if rows[i].path == p then Toggle(rows[i]) else rows[i])
  }

  /** `marcar_ignorado`; `ok` is false where the statement fails because the table has no
      `ignorado` column, and then nothing changes. */
  method MarcarIgnorado(store: Store, p: string) returns (ok: bool)
    modifies store
    ensures ok == old(store.hasIgnorado) && store.hasIgnorado == old(store.hasIgnorado)
    ensures ok ==> store.rows == ToggledIgnorado(old(store.rows), p) && store.committed == store.rows
    ensures !ok ==> store.rows == old(store.rows) && store.committed == old(store.committed)
  {
    ok := store.hasIgnorado;
    if ok {
      store.rows := ToggledIgnorado(store.rows, p);
      store.Commit();
    }
  }

  /** The toggle flips the flag of exactly the rows with that path (NULL counts as 0) and
      touches no other field. */
  lemma ToggleFlips(rows: seq<Row>, p: string)
    ensures forall i :: 0 <= i < |rows| ==>
      && IsIgnored(ToggledIgnorado(rows, p)[i]) == (if rows[i].path == p then !IsIgnored(rows[i]) else IsIgnored(rows[i]))
      && ToggledIgnorado(rows, p)[i].(ignorado := rows[i].ignorado) == rows[i]
  {
  }

  /** Toggling twice restores every row's ignored state, reading NULL as 0. */
  lemma ToggleTwice(rows: seq<Row>, p: string)
    ensures var r := ToggledIgnorado(ToggledIgnorado(rows, p), p);
      |r| == |rows| && forall i :: 0 <= i < |rows| ==>
        IsIgnored(r[i]) == IsIgnored(rows[i]) && r[i].(ignorado := rows[i].ignorado) == rows[i]
  {
    var once := ToggledIgnorado(rows, p);
    var r := ToggledIgnorado(once, p);
    forall i | 0 <= i < |rows|
      ensures IsIgnored(r[i]) == IsIgnored(rows[i]) && r[i].(ignorado := rows[i].ignorado) == rows[i]
    {
      assert once[i].path == rows[i].path;
    }
  }

  /** Toggling a path that is not catalogued changes nothing. */
  lemma ToggleAbsent(rows: seq<Row>, p: string)
    requires p !in Paths(rows)
    ensures ToggledIgnorado(rows, p) == rows
  {
    forall i | 0 <= i < |rows| ensures rows[i].path != p {
      assert rows[i] in rows;
    }
  }

  /** `UPDATE arquivos SET deletado=1 WHERE path=?`. */
  function MarkedDeleted(rows: seq<Row>, p: string): (r: seq<Row>)
    ensures |r| == |rows|
    ensures forall i :: 0 <= i < |rows| ==> r[i] == if rows[i].path == p then rows[i].(deletado := true) else rows[i]
  {
    if rows == [] then []
    else [if rows[0].path == p then rows[0].(deletado := true) else rows[0]] + MarkedDeleted(rows[1..], p)
  }

  /** `marcar_deletado`. */
  method MarcarDeletado(store: Store, p: string)
    modifies store
    ensures store.rows == MarkedDeleted(old(store.rows), p) && store.committed == store.rows
    ensures store.hasIgnorado == old(store.hasIgnorado)
  {
    store.rows := MarkedDeleted(store.rows, p);
    store.Commit();
  }

  /** Marking a path deleted twice is marking it once. */
  lemma MarkDeletedIdempotent(rows: seq<Row>, p: string)
    ensures MarkedDeleted(MarkedDeleted(rows, p), p) == MarkedDeleted(rows, p)
  {
  }

  // ---------------------------------------------------------------------------------
  // Aggregates

  /** `total_deletados_count`: `SELECT COUNT(*) ... WHERE deletado=1`. */
  function DeletedCount(rows: seq<Row>): (n: nat)
    ensures n <= |rows|
    ensures n == 0 <==> forall i :: 0 <= i < |rows| ==> !rows[i].deletado
  {
    if rows == [] then 0
    else
      assert forall i :: 1 <= i < |rows| ==> rows[i] == rows[1..][i - 1];
      (if rows[0].deletado then 1 else 0) + DeletedCount(rows[1..])
  }

  /** The byte total behind `total_deletado_mb`: `SUM(tamanho) ... WHERE deletado=1`, 0 when
      nothing is deleted. */
  function DeletedBytes(rows: seq<Row>): (b: int)
    ensures (forall i :: 0 <= i < |rows| ==> !rows[i].deletado) ==> b == 0
    ensures (forall i :: 0 <= i < |rows| ==> rows[i].tamanho >= 0) ==> b >= 0
  {
    if rows == [] then 0
    else
      assert forall i :: 1 <= i < |rows| ==> rows[i] == rows[1..][i - 1];
      (if rows[0].deletado then rows[0].tamanho else 0) + DeletedBytes(rows[1..])
  }

  /** Rows with path `p` that are not deleted yet, and their total size. */
  function PendingCount(rows: seq<Row>, p: string): nat
  {
    if rows == [] then 0 else (if rows[0].path == p && !rows[0].deletado then 1 else 0) + PendingCount(rows[1..], p)
  }

  function PendingBytes(rows: seq<Row>, p: string): int
  {
    if rows == [] then 0
    else (if rows[0].path == p && !rows[0].deletado then rows[0].tamanho else 0) + PendingBytes(rows[1..], p)
  }

  /** Marking `p` deleted adds exactly its not-yet-deleted rows to both aggregates. */
  lemma {:induction false} MarkDeletedTotals(rows: seq<Row>, p: string)
    ensures DeletedCount(MarkedDeleted(rows, p)) == DeletedCount(rows) + PendingCount(rows, p)
    ensures DeletedBytes(MarkedDeleted(rows, p)) == DeletedBytes(rows) + PendingBytes(rows, p)
  {
    if rows != [] {
      MarkDeletedTotals(rows[1..], p);
      assert MarkedDeleted(rows, p)[1..] == MarkedDeleted(rows[1..], p);
    }
  }

  /** With at most one row per path: the only row `r` with path `p` contributes once. */
  lemma {:induction false} PendingOfUnique(rows: seq<Row>, p: string, r: Row)
    requires UniquePaths(rows) && FindRow(rows, p) == Some(r)
    ensures PendingCount(rows, p) == (if r.deletado then 0 else 1)
    ensures PendingBytes(rows, p) == (if r.deletado then 0 else r.tamanho)
  {
    if rows[0].path == p {
      assert p !in Paths(rows[1..]) by {
        forall x | x in rows[1..] ensures x.path != p {
          var j :| 0 <= j < |rows[1..]| && rows[1..][j] == x;
          assert rows[j + 1] == x;
        }
      }
      PendingAbsent(rows[1..], p);
    } else {
      PendingOfUnique(rows[1..], p, r);
    }
  }

  lemma {:induction false} PendingAbsent(rows: seq<Row>, p: string)
    requires p !in Paths(rows)
    ensures PendingCount(rows, p) == 0 && PendingBytes(rows, p) == 0
  {
    if rows != [] {
      assert rows[0] in rows;
      assert Paths(rows[1..]) <= Paths(rows) by {
        assert forall x :: x in rows[1..] ==> x in rows;
      }
      PendingAbsent(rows[1..], p);
    }
  }

  /** After `marcar_deletado(p)` on a catalog with one row per path, the deleted count and byte
      total include `p`'s row, and grow by one and by its size if it was not deleted before. */
  lemma MarkDeletedStats(rows: seq<Row>, p: string, r: Row)
    requires UniquePaths(rows) && FindRow(rows, p) == Some(r)
    ensures DeletedCount(MarkedDeleted(rows, p)) == DeletedCount(rows) + (if r.deletado then 0 else 1)
    ensures DeletedBytes(MarkedDeleted(rows, p)) == DeletedBytes(rows) + (if r.deletado then 0 else r.tamanho)
  {
    MarkDeletedTotals(rows, p);
    PendingOfUnique(rows, p, r);
  }

  // ---------------------------------------------------------------------------------
  // Queries

  /** The viewer's contexts; any other value selects every extension list. */
  datatype Contexto = Imagens | Videos | Documentos | Corrompidos

  /** `buscar_corrompidos`' scope: images, videos, or both when no context (or another one) is
      given. */
  function CorruptScope(ctx: Option<Contexto>): seq<string>
  {
    match ctx
    case Some(Imagens) => IMG_EXTS
    case Some(Videos) => VIDEO_EXTS
    case _ => IMG_EXTS + VIDEO_EXTS
  }

  /** `buscar_corrompidos`: `SELECT * ... WHERE corrompida=1 AND ext IN (scope)`. */
  function BuscarCorrompidos(rows: seq<Row>, ctx: Option<Contexto>): (r: seq<Row>)
    ensures |r| <= |rows|
    ensures forall x :: x in r ==> x in rows && x.corrompida && x.ext in CorruptScope(ctx)
  {
    if rows == [] then []
    else (if rows[0].corrompida && rows[0].ext in CorruptScope(ctx) then [rows[0]] else [])
         + BuscarCorrompidos(rows[1..], ctx)
  }

  /** The query returns exactly the corrupted rows whose extension is in scope. */
  lemma {:induction false} BuscarCorrompidosSpec(rows: seq<Row>, ctx: Option<Contexto>)
    ensures forall x :: x in BuscarCorrompidos(rows, ctx) <==> x in rows && x.corrompida && x.ext in CorruptScope(ctx)
  {
    if rows != [] {
      BuscarCorrompidosSpec(rows[1..], ctx);
      assert rows == [rows[0]] + rows[1..];
    }
  }

  /** The corrupted view never lists a document, whatever the context. */
  lemma CorruptedNeverDocuments(rows: seq<Row>, ctx: Option<Contexto>)
    ensures forall x :: x in BuscarCorrompidos(rows, ctx) ==> x.ext !in DOC_EXTS
  {
    BuscarCorrompidosSpec(rows, ctx);
    forall x | x in BuscarCorrompidos(rows, ctx) ensures x.ext !in DOC_EXTS {
      MediaNotDocument(x.ext);
    }
  }

  /** No image or video extension is also a document extension. */
  lemma MediaNotDocument(e: string)
    requires e in IMG_EXTS + VIDEO_EXTS
    ensures e !in DOC_EXTS
  {
    var i :| 0 <= i < |IMG_EXTS + VIDEO_EXTS| && (IMG_EXTS + VIDEO_EXTS)[i] == e;
    forall j | 0 <= j < |DOC_EXTS| ensures DOC_EXTS[j] != e {
      assert DOC_EXTS[j][1] != e[1] || |DOC_EXTS[j]| != |e| || DOC_EXTS[j][2] != e[2];
    }
  }

  /** `buscar_duplicadas`' extension scope. */
  function ScopeExts(ctx: Contexto): seq<string>
  {
    match ctx
    case Imagens => IMG_EXTS
    case Videos => VIDEO_EXTS
    case Documentos => DOC_EXTS
    case _ => IMG_EXTS + VIDEO_EXTS + DOC_EXTS
  }

  /** The grouping key: `(hash, tamanho, data_criacao)`, or `(hash, tamanho)`. */
  datatype Key = Key(hash: Digest, tamanho: int, data: Option<string>)

  function KeyOf(r: Row, byDate: bool): Key
  {
    Key(r.hash, r.tamanho, if byDate then Some(r.dataCriacao) else None)
  }

  /** `(deletado=0 OR deletado IS NULL)` and `(ignorado=0 OR ignorado IS NULL)`, each applied
      only when the caller excludes that kind of row. */
  predicate Visible(r: Row, incDel: bool, incIgn: bool)
  {
    (incDel || !r.deletado) && (incIgn || !IsIgnored(r))
  }

  /** The rows the counting query's WHERE clause keeps. */
  function Counted(rows: seq<Row>, exts: seq<string>, incDel: bool, incIgn: bool): (r: seq<Row>)
    ensures |r| <= |rows|
  {
    if rows == [] then []
    else (if rows[0].ext in exts && Visible(rows[0], incDel, incIgn) then [rows[0]] else [])
         + Counted(rows[1..], exts, incDel, incIgn)
  }

  lemma {:induction false} CountedSpec(rows: seq<Row>, exts: seq<string>, incDel: bool, incIgn: bool)
    ensures forall x :: x in Counted(rows, exts, incDel, incIgn) <==> x in rows && x.ext in exts && Visible(x, incDel, incIgn)
  {
    if rows != [] {
      CountedSpec(rows[1..], exts, incDel, incIgn);
      assert rows == [rows[0]] + rows[1..];
    }
  }

  /** `COUNT(*)` of one group. */
  function CountKey(rows: seq<Row>, k: Key, byDate: bool): nat
  {
    if rows == [] then 0 else (if KeyOf(rows[0], byDate) == k then 1 else 0) + CountKey(rows[1..], k, byDate)
  }

  /** The distinct keys, in order of first occurrence. */
  function DistinctKeys(rows: seq<Row>, byDate: bool): (ks: seq<Key>)
    ensures |ks| <= |rows|
  {
    if rows == [] then []
    else
      var ks := DistinctKeys(rows[..|rows| - 1], byDate);
      var k := KeyOf(rows[|rows| - 1], byDate);
      if k in ks then ks else ks + [k]
  }

  /** No key occurs twice. */
  predicate NoDupKeys(ks: seq<Key>)
  {
    forall i, j :: 0 <= i < j < |ks| ==> ks[i] != ks[j]
  }

  /** Some row has key `k`. */
  predicate HasKey(rows: seq<Row>, k: Key, byDate: bool)
  {
    exists x :: x in rows && KeyOf(x, byDate) == k
  }

  /** Each key occurs once, and exactly the keys of the rows occur. */
  lemma {:induction false} DistinctKeysSpec(rows: seq<Row>, byDate: bool)
    ensures NoDupKeys(DistinctKeys(rows, byDate))
    ensures forall k :: k in DistinctKeys(rows, byDate) <==> HasKey(rows, k, byDate)
  {
    if rows != [] {
      var init, last := rows[..|rows| - 1], rows[|rows| - 1];
      DistinctKeysSpec(init, byDate);
      assert rows == init + [last];
      var ks', ks := DistinctKeys(init, byDate), DistinctKeys(rows, byDate);
      assert ks == if KeyOf(last, byDate) in ks' then ks' else ks' + [KeyOf(last, byDate)];
      forall k ensures k in ks <==> HasKey(rows, k, byDate) {
        if k in ks {
          if k in ks' {
            assert HasKey(init, k, byDate);
            var x :| x in init && KeyOf(x, byDate) == k;
            assert x in rows;
          } else {
            assert last in rows && KeyOf(last, byDate) == k;
          }
        }
        if HasKey(rows, k, byDate) {
          var x :| x in rows && KeyOf(x, byDate) == k;
          if x !in init {
            assert x == last;
          } else {
            assert HasKey(init, k, byDate);
          }
        }
      }
      forall i, j | 0 <= i < j < |ks| ensures ks[i] != ks[j] {
        if j == |ks'| {
          assert ks[i] == ks'[i] && ks'[i] in ks';
        } else {
          assert ks[i] == ks'[i] && ks[j] == ks'[j];
        }
      }
    }
  }

  /** `GROUP BY ... HAVING qtd > 1`: the keys counted more than once. */
  function Repeated(ks: seq<Key>, counted: seq<Row>, byDate: bool): (r: seq<Key>)
    ensures |r| <= |ks|
  {
    if ks == [] then []
    else (if CountKey(counted, ks[0], byDate) > 1 then [ks[0]] else []) + Repeated(ks[1..], counted, byDate)
  }

  lemma {:induction false} RepeatedSpec(ks: seq<Key>, counted: seq<Row>, byDate: bool)
    ensures forall k :: k in Repeated(ks, counted, byDate) <==> k in ks && CountKey(counted, k, byDate) > 1
    ensures NoDupKeys(ks) ==> NoDupKeys(Repeated(ks, counted, byDate))
  {
    if ks != [] {
      RepeatedSpec(ks[1..], counted, byDate);
      assert ks == [ks[0]] + ks[1..];
      var r := Repeated(ks, counted, byDate);
      var r' := Repeated(ks[1..], counted, byDate);
      if NoDupKeys(ks) {
        assert ks[0] !in ks[1..] by {
          forall j | 1 <= j < |ks| ensures ks[j] != ks[0] { }
        }
        assert NoDupKeys(ks[1..]) by {
          forall i, j | 0 <= i < j < |ks[1..]| ensures ks[1..][i] != ks[1..][j] {
            assert ks[1..][i] == ks[i + 1] && ks[1..][j] == ks[j + 1];
          }
        }
        if CountKey(counted, ks[0], byDate) > 1 {
          assert r == [ks[0]] + r';
          forall i, j | 0 <= i < j < |r| ensures r[i] != r[j] {
            if i == 0 {
              assert r[0] == ks[0];
              assert r[j] == r'[j - 1] && r'[j - 1] in r';
              assert r[j] in ks[1..];
            } else {
              assert r[i] == r'[i - 1] && r[j] == r'[j - 1];
            }
          }
        } else {
          assert r == r';
        }
      }
    }
  }

  /** The member query of one group: key match and the deleted/ignored filters, but no
      extension filter. */
  function Members(rows: seq<Row>, k: Key, byDate: bool, incDel: bool, incIgn: bool): (r: seq<Row>)
    ensures |r| <= |rows|
  {
    if rows == [] then []
    else (if KeyOf(rows[0], byDate) == k && Visible(rows[0], incDel, incIgn) then [rows[0]] else [])
         + Members(rows[1..], k, byDate, incDel, incIgn)
  }

  lemma {:induction false} MembersSpec(rows: seq<Row>, k: Key, byDate: bool, incDel: bool, incIgn: bool)
    ensures forall x :: x in Members(rows, k, byDate, incDel, incIgn) <==> x in rows && KeyOf(x, byDate) == k && Visible(x, incDel, incIgn)
  {
    if rows != [] {
      MembersSpec(rows[1..], k, byDate, incDel, incIgn);
      assert rows == [rows[0]] + rows[1..];
    }
  }

  /** The keys of the groups `buscar_duplicadas` returns. */
  function DuplicateKeys(rows: seq<Row>, exts: seq<string>, byDate: bool, incDel: bool, incIgn: bool): seq<Key>
  {
    var counted := Counted(rows, exts, incDel, incIgn);
    Repeated(DistinctKeys(counted, byDate), counted, byDate)
  }

  /** A key with a positive count is the key of some row. */
  lemma {:induction false} CountKeyWitness(rows: seq<Row>, k: Key, byDate: bool)
    requires CountKey(rows, k, byDate) > 0
    ensures exists x :: x in rows && KeyOf(x, byDate) == k
  {
    if KeyOf(rows[0], byDate) != k {
      CountKeyWitness(rows[1..], k, byDate);
      var x :| x in rows[1..] && KeyOf(x, byDate) == k;
      assert x in rows;
    }
  }

  /** The group keys are distinct, and they are exactly the keys the counting query counted
      at least twice. */
  lemma DuplicateKeysSpec(rows: seq<Row>, exts: seq<string>, byDate: bool, incDel: bool, incIgn: bool)
    ensures var counted := Counted(rows, exts, incDel, incIgn);
      var ks := DuplicateKeys(rows, exts, byDate, incDel, incIgn);
      (forall k :: k in ks <==> CountKey(counted, k, byDate) >= 2) && NoDupKeys(ks)
  {
    var counted := Counted(rows, exts, incDel, incIgn);
    DistinctKeysSpec(counted, byDate);
    RepeatedSpec(DistinctKeys(counted, byDate), counted, byDate);
    forall k | CountKey(counted, k, byDate) >= 2 ensures k in DistinctKeys(counted, byDate) {
      CountKeyWitness(counted, k, byDate);
      assert HasKey(counted, k, byDate);
    }
  }

  /** `buscar_duplicadas(contexto, considerar_data_criacao, considerar_deletados,
      considerar_ignorados)`: one group per repeated key. */
  function BuscarDuplicadas(rows: seq<Row>, ctx: Contexto, byDate: bool, incDel: bool, incIgn: bool): (gs: seq<seq<Row>>)
    ensures |gs| == |DuplicateKeys(rows, ScopeExts(ctx), byDate, incDel, incIgn)|
  {
    Groups(rows, ScopeExts(ctx), byDate, incDel, incIgn)
  }

  /** The groups for an explicit extension list. */
  function Groups(rows: seq<Row>, exts: seq<string>, byDate: bool, incDel: bool, incIgn: bool): (gs: seq<seq<Row>>)
    ensures |gs| == |DuplicateKeys(rows, exts, byDate, incDel, incIgn)|
  {
    var ks := DuplicateKeys(rows, exts, byDate, incDel, incIgn);
    seq(|ks|, i requires 0 <= i < |ks| => Members(rows, ks[i], byDate, incDel, incIgn))
  }

  /** The member query keeps every row the counting query counted for that key. */
  lemma {:induction false} MembersCoverCounted(rows: seq<Row>, exts: seq<string>, k: Key, byDate: bool, incDel: bool, incIgn: bool)
    ensures CountKey(Counted(rows, exts, incDel, incIgn), k, byDate) <= |Members(rows, k, byDate, incDel, incIgn)|
  {
    if rows != [] {
      MembersCoverCounted(rows[1..], exts, k, byDate, incDel, incIgn);
      var c := Counted(rows, exts, incDel, incIgn);
      var c' := Counted(rows[1..], exts, incDel, incIgn);
      var m := Members(rows, k, byDate, incDel, incIgn);
      var m' := Members(rows[1..], k, byDate, incDel, incIgn);
      assert |m| >= |m'|;
      if rows[0].ext in exts && Visible(rows[0], incDel, incIgn) {
        assert c == [rows[0]] + c';
        assert c[0] == rows[0] && c[1..] == c';
        assert CountKey(c, k, byDate) == (if KeyOf(rows[0], byDate) == k then 1 else 0) + CountKey(c', k, byDate);
        if KeyOf(rows[0], byDate) == k {
          assert m == [rows[0]] + m';
        }
      } else {
        assert c == c';
      }
    }
  }

  /** Every group has at least two rows: the member query returns at least the rows that were
      counted, and more than one was. */
  lemma GroupsHaveTwo(rows: seq<Row>, ctx: Contexto, byDate: bool, incDel: bool, incIgn: bool)
    ensures forall g :: g in BuscarDuplicadas(rows, ctx, byDate, incDel, incIgn) ==> |g| >= 2
  {
    var ks := DuplicateKeys(rows, ScopeExts(ctx), byDate, incDel, incIgn);
    var gs := BuscarDuplicadas(rows, ctx, byDate, incDel, incIgn);
    DuplicateKeysSpec(rows, ScopeExts(ctx), byDate, incDel, incIgn);
    forall i | 0 <= i < |gs| ensures |gs[i]| >= 2 {
      assert ks[i] in ks;
      MembersCoverCounted(rows, ScopeExts(ctx), ks[i], byDate, incDel, incIgn);
    }
  }

  /** Every row of a group shares the group's `(hash, tamanho)`, and its `data_criacao` too
      when the date is part of the key; and it passes the deleted/ignored filters. */
  lemma GroupsShareKey(rows: seq<Row>, ctx: Contexto, byDate: bool, incDel: bool, incIgn: bool)
    ensures forall g, x, y :: g in BuscarDuplicadas(rows, ctx, byDate, incDel, incIgn) && x in g && y in g ==>
      x.hash == y.hash && x.tamanho == y.tamanho && (byDate ==> x.dataCriacao == y.dataCriacao)
    ensures forall g, x :: g in BuscarDuplicadas(rows, ctx, byDate, incDel, incIgn) && x in g ==>
      x in rows && (!incDel ==> !x.deletado) && (!incIgn ==> !IsIgnored(x))
  {
    var ks := DuplicateKeys(rows, ScopeExts(ctx), byDate, incDel, incIgn);
    var gs := BuscarDuplicadas(rows, ctx, byDate, incDel, incIgn);
    forall g, x, y | g in gs && x in g && y in g
      ensures x.hash == y.hash && x.tamanho == y.tamanho && (byDate ==> x.dataCriacao == y.dataCriacao)
    {
      var i :| 0 <= i < |gs| && gs[i] == g;
      MembersSpec(rows, ks[i], byDate, incDel, incIgn);
      assert KeyOf(x, byDate) == ks[i] == KeyOf(y, byDate);
    }
    forall g, x | g in gs && x in g
      ensures x in rows && (!incDel ==> !x.deletado) && (!incIgn ==> !IsIgnored(x))
    {
      var i :| 0 <= i < |gs| && gs[i] == g;
      MembersSpec(rows, ks[i], byDate, incDel, incIgn);
    }
  }

  /** No duplicate is missed: a counted row whose key was counted at least twice lies in
      exactly one group. */
  lemma GroupsComplete(rows: seq<Row>, ctx: Contexto, byDate: bool, incDel: bool, incIgn: bool, x: Row)
    requires x in Counted(rows, ScopeExts(ctx), incDel, incIgn)
    requires CountKey(Counted(rows, ScopeExts(ctx), incDel, incIgn), KeyOf(x, byDate), byDate) >= 2
    ensures exists i :: 0 <= i < |BuscarDuplicadas(rows, ctx, byDate, incDel, incIgn)|
                        && x in BuscarDuplicadas(rows, ctx, byDate, incDel, incIgn)[i]
    ensures forall i, j :: 0 <= i < j < |BuscarDuplicadas(rows, ctx, byDate, incDel, incIgn)| ==>
      !(x in BuscarDuplicadas(rows, ctx, byDate, incDel, incIgn)[i] && x in BuscarDuplicadas(rows, ctx, byDate, incDel, incIgn)[j])
  {
    var counted := Counted(rows, ScopeExts(ctx), incDel, incIgn);
    var ks := DuplicateKeys(rows, ScopeExts(ctx), byDate, incDel, incIgn);
    var gs := BuscarDuplicadas(rows, ctx, byDate, incDel, incIgn);
    var k := KeyOf(x, byDate);
    DuplicateKeysSpec(rows, ScopeExts(ctx), byDate, incDel, incIgn);
    CountedSpec(rows, ScopeExts(ctx), incDel, incIgn);
    assert k in ks;
    var i :| 0 <= i < |ks| && ks[i] == k;
    MembersSpec(rows, k, byDate, incDel, incIgn);
    assert x in gs[i];
    forall i, j | 0 <= i < j < |gs| ensures !(x in gs[i] && x in gs[j]) {
      MembersSpec(rows, ks[i], byDate, incDel, incIgn);
      MembersSpec(rows, ks[j], byDate, incDel, incIgn);
    }
  }

  // ---------------------------------------------------------------------------------
  // Scenarios

  // Three-row evaluations, one query stage at a time.

  function Keep(x: Row, b: bool): seq<Row> { if b then [x] else [] }

  lemma CountedCons(x: Row, rest: seq<Row>, exts: seq<string>, incDel: bool, incIgn: bool)
    ensures Counted([x] + rest, exts, incDel, incIgn) == Keep(x, x.ext in exts && Visible(x, incDel, incIgn)) + Counted(rest, exts, incDel, incIgn)
  {
    assert ([x] + rest)[0] == x && ([x] + rest)[1..] == rest;
  }

  lemma CountedThree(a: Row, b: Row, c: Row, exts: seq<string>, incDel: bool, incIgn: bool)
    ensures Counted([a, b, c], exts, incDel, incIgn) ==
      Keep(a, a.ext in exts && Visible(a, incDel, incIgn)) + Keep(b, b.ext in exts && Visible(b, incDel, incIgn))
      + Keep(c, c.ext in exts && Visible(c, incDel, incIgn))
  {
    assert [a, b, c] == [a] + ([b] + ([c] + []));
    CountedCons(c, [], exts, incDel, incIgn);
    CountedCons(b, [c], exts, incDel, incIgn);
    CountedCons(a, [b, c], exts, incDel, incIgn);
  }

  lemma MembersCons(x: Row, rest: seq<Row>, k: Key, byDate: bool, incDel: bool, incIgn: bool)
    ensures Members([x] + rest, k, byDate, incDel, incIgn) == Keep(x, KeyOf(x, byDate) == k && Visible(x, incDel, incIgn)) + Members(rest, k, byDate, incDel, incIgn)
  {
    assert ([x] + rest)[0] == x && ([x] + rest)[1..] == rest;
  }

  lemma MembersThree(a: Row, b: Row, c: Row, k: Key, byDate: bool, incDel: bool, incIgn: bool)
    ensures Members([a, b, c], k, byDate, incDel, incIgn) ==
      Keep(a, KeyOf(a, byDate) == k && Visible(a, incDel, incIgn)) + Keep(b, KeyOf(b, byDate) == k && Visible(b, incDel, incIgn))
      + Keep(c, KeyOf(c, byDate) == k && Visible(c, incDel, incIgn))
  {
    assert [a, b, c] == [a] + ([b] + ([c] + []));
    MembersCons(c, [], k, byDate, incDel, incIgn);
    MembersCons(b, [c], k, byDate, incDel, incIgn);
    MembersCons(a, [b, c], k, byDate, incDel, incIgn);
  }

  lemma DistinctKeysTwo(a: Row, b: Row, byDate: bool)
    ensures DistinctKeys([a, b], byDate) ==
      if KeyOf(a, byDate) == KeyOf(b, byDate) then [KeyOf(a, byDate)] else [KeyOf(a, byDate), KeyOf(b, byDate)]
  {
    assert [a, b][..1] == [a] && [a][..0] == [];
    assert DistinctKeys([a], byDate) == [KeyOf(a, byDate)];
  }

  lemma DistinctKeysThreeOneKey(a: Row, b: Row, c: Row, byDate: bool)
    requires KeyOf(a, byDate) == KeyOf(b, byDate) == KeyOf(c, byDate)
    ensures DistinctKeys([a, b, c], byDate) == [KeyOf(a, byDate)]
  {
    DistinctKeysTwo(a, b, byDate);
    assert [a, b, c][..2] == [a, b];
  }

  lemma DistinctKeysThreeTwoKeys(a: Row, b: Row, c: Row, byDate: bool)
    requires KeyOf(a, byDate) == KeyOf(b, byDate) != KeyOf(c, byDate)
    ensures DistinctKeys([a, b, c], byDate) == [KeyOf(a, byDate), KeyOf(c, byDate)]
  {
    DistinctKeysTwo(a, b, byDate);
    assert [a, b, c][..2] == [a, b];
  }

  lemma CountKeyThree(a: Row, b: Row, c: Row, k: Key, byDate: bool)
    ensures CountKey([a, b, c], k, byDate) ==
      (if KeyOf(a, byDate) == k then 1 else 0) + (if KeyOf(b, byDate) == k then 1 else 0) + (if KeyOf(c, byDate) == k then 1 else 0)
  {
    assert [a, b, c][1..] == [b, c] && [b, c][1..] == [c] && [c][1..] == [];
    assert CountKey([c], k, byDate) == if KeyOf(c, byDate) == k then 1 else 0;
    CountKeyTwo(b, c, k, byDate);
  }

  lemma CountKeyTwo(a: Row, b: Row, k: Key, byDate: bool)
    ensures CountKey([a, b], k, byDate) == (if KeyOf(a, byDate) == k then 1 else 0) + (if KeyOf(b, byDate) == k then 1 else 0)
  {
    assert [a, b][1..] == [b] && [b][1..] == [];
    assert CountKey([b], k, byDate) == if KeyOf(b, byDate) == k then 1 else 0;
  }

  /** Three visible rows of which the first two share a key and the third has another: the
      only group is the first two. */
  lemma GroupOfFirstTwo(a: Row, b: Row, c: Row, exts: seq<string>, byDate: bool, incDel: bool, incIgn: bool)
    requires forall x :: x in [a, b, c] ==> x.ext in exts && Visible(x, incDel, incIgn)
    requires KeyOf(a, byDate) == KeyOf(b, byDate) != KeyOf(c, byDate)
    ensures Groups([a, b, c], exts, byDate, incDel, incIgn) == [[a, b]]
  {
    var rows := [a, b, c];
    var ka, kc := KeyOf(a, byDate), KeyOf(c, byDate);
    assert a in rows && b in rows && c in rows;
    CountedThree(a, b, c, exts, incDel, incIgn);
    assert Counted(rows, exts, incDel, incIgn) == rows;
    DistinctKeysThreeTwoKeys(a, b, c, byDate);
    CountKeyThree(a, b, c, ka, byDate);
    CountKeyThree(a, b, c, kc, byDate);
    assert [ka, kc][1..] == [kc] && [kc][1..] == [];
    assert Repeated([kc], rows, byDate) == [];
    assert Repeated([ka, kc], rows, byDate) == [ka] + Repeated([kc], rows, byDate);
    assert DuplicateKeys(rows, exts, byDate, incDel, incIgn) == [ka];
    MembersThree(a, b, c, ka, byDate, incDel, incIgn);
    var gs := Groups(rows, exts, byDate, incDel, incIgn);
    assert |gs| == 1 && gs[0] == [a, b];
  }

  /** One repeated key among the counted rows gives exactly one group: its member query. */
  lemma GroupsOfOneKey(rows: seq<Row>, exts: seq<string>, k: Key, byDate: bool, incDel: bool, incIgn: bool)
    requires DuplicateKeys(rows, exts, byDate, incDel, incIgn) == [k]
    ensures Groups(rows, exts, byDate, incDel, incIgn) == [Members(rows, k, byDate, incDel, incIgn)]
  {
  }

  /** A single counted key occurring at least twice is the only duplicate key. */
  lemma RepeatedOneKey(counted: seq<Row>, k: Key, byDate: bool)
    requires DistinctKeys(counted, byDate) == [k] && CountKey(counted, k, byDate) >= 2
    ensures Repeated(DistinctKeys(counted, byDate), counted, byDate) == [k]
  {
    assert Repeated([k], counted, byDate) == [k] + Repeated([k][1..], counted, byDate);
  }

  /** Three rows with one key, of which the first two are in scope, have that key as their only
      duplicate key, whether or not the third is in scope. */
  lemma DuplicateKeysThreeOneKey(a: Row, b: Row, c: Row, exts: seq<string>, byDate: bool, incDel: bool, incIgn: bool)
    requires forall x :: x in [a, b, c] ==> Visible(x, incDel, incIgn)
    requires a.ext in exts && b.ext in exts
    requires KeyOf(a, byDate) == KeyOf(b, byDate) == KeyOf(c, byDate)
    ensures DuplicateKeys([a, b, c], exts, byDate, incDel, incIgn) == [KeyOf(a, byDate)]
  {
    var rows, k := [a, b, c], KeyOf(a, byDate);
    assert a in rows && b in rows && c in rows;
    CountedThree(a, b, c, exts, incDel, incIgn);
    var counted := Counted(rows, exts, incDel, incIgn);
    if c.ext in exts {
      assert counted == rows;
      DistinctKeysThreeOneKey(a, b, c, byDate);
      CountKeyThree(a, b, c, k, byDate);
    } else {
      assert counted == [a, b];
      DistinctKeysTwo(a, b, byDate);
      CountKeyTwo(a, b, k, byDate);
    }
    RepeatedOneKey(counted, k, byDate);
  }

  /** Three visible rows with one key, of which the first two are in scope: one group holding
      all three, whether or not the third is in scope. */
  lemma GroupOfAllThree(a: Row, b: Row, c: Row, exts: seq<string>, byDate: bool, incDel: bool, incIgn: bool)
    requires forall x :: x in [a, b, c] ==> Visible(x, incDel, incIgn)
    requires a.ext in exts && b.ext in exts
    requires KeyOf(a, byDate) == KeyOf(b, byDate) == KeyOf(c, byDate)
    ensures Groups([a, b, c], exts, byDate, incDel, incIgn) == [[a, b, c]]
  {
    var k := KeyOf(a, byDate);
    DuplicateKeysThreeOneKey(a, b, c, exts, byDate, incDel, incIgn);
    GroupsOfOneKey([a, b, c], exts, k, byDate, incDel, incIgn);
    assert a in [a, b, c] && b in [a, b, c] && c in [a, b, c];
    MembersThree(a, b, c, k, byDate, incDel, incIgn);
    assert Visible(a, incDel, incIgn) && Visible(b, incDel, incIgn) && Visible(c, incDel, incIgn);
    assert Members([a, b, c], k, byDate, incDel, incIgn) == [a] + [b] + [c] == [a, b, c];
  }

  /** A and B share hash, size and date T1; C has the same hash and size but date T2. With the
      date in the key the only group is [A, B]; without it, [A, B, C]. */
  lemma DateKeyScenario(h: Digest, t1: string, t2: string)
    requires t1 != t2
    ensures var a := Row("a.jpg", "/a.jpg", h, 100, t1, false, ".jpg", false, Some(false));
            var b := Row("b.jpg", "/b.jpg", h, 100, t1, false, ".jpg", false, Some(false));
            var c := Row("c.jpg", "/c.jpg", h, 100, t2, false, ".jpg", false, Some(false));
            && BuscarDuplicadas([a, b, c], Imagens, true, true, true) == [[a, b]]
            && BuscarDuplicadas([a, b, c], Imagens, false, true, true) == [[a, b, c]]
  {
    var a := Row("a.jpg", "/a.jpg", h, 100, t1, false, ".jpg", false, Some(false));
    var b := Row("b.jpg", "/b.jpg", h, 100, t1, false, ".jpg", false, Some(false));
    var c := Row("c.jpg", "/c.jpg", h, 100, t2, false, ".jpg", false, Some(false));
    assert IMG_EXTS[0] == ".jpg";
    GroupOfFirstTwo(a, b, c, IMG_EXTS, true, true, true);
    GroupOfAllThree(a, b, c, IMG_EXTS, false, true, true);
  }

  /** The extension scope restricts only the counting query: with the images context, two
      images and a video file with the same key form one group that includes the video. A
      corrupted image is grouped like any other row. */
  lemma ScopeOnlyRestrictsCounting(h: Digest, t: string)
    ensures var a := Row("a.jpg", "/a.jpg", h, 100, t, true, ".jpg", false, Some(false));
            var b := Row("b.jpg", "/b.jpg", h, 100, t, false, ".jpg", false, Some(false));
            var v := Row("v.mp4", "/v.mp4", h, 100, t, false, ".mp4", false, Some(false));
            BuscarDuplicadas([a, b, v], Imagens, true, true, true) == [[a, b, v]]
  {
    var a := Row("a.jpg", "/a.jpg", h, 100, t, true, ".jpg", false, Some(false));
    var b := Row("b.jpg", "/b.jpg", h, 100, t, false, ".jpg", false, Some(false));
    var v := Row("v.mp4", "/v.mp4", h, 100, t, false, ".mp4", false, Some(false));
    assert IMG_EXTS[0] == ".jpg";
    GroupOfAllThree(a, b, v, IMG_EXTS, true, true, true);
  }
}
