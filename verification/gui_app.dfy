/** The logic of the duplicate viewer in gui_app.py: loading the groups, the path filter,
    flattening the groups into the list of entries the pages show, paging, selecting by
    filter and sending the selected files to the trash. The widgets are not modelled. */
module GuiApp {
  import opened Wrappers
  import opened Text
  import opened Catalog
  import opened DbUtils

  // ---------------------------------------------------------------------------------
  // The path filter

  /** `fnmatch` of a lower-cased path against a lower-cased pattern: `*` matches any run of
      characters, `?` any one character, every other character itself. */
  function Glob(s: string, p: string): (r: bool)
    decreases |s| + |p|
    ensures Literal(p) ==> (r <==> s == p)
  {
    if p == [] then s == []
    else if p[0] == '*' then Glob(s, p[1..]) || (s != [] && Glob(s[1..], p))
    else
      assert '*' !in p[1..] && '?' !in p[1..] <== Literal(p) by {
        assert forall c :: c in p[1..] ==> c in p;
      }
      assert s != [] && s[0] == p[0] ==> (s == p <==> s[1..] == p[1..]) by {
        if s != [] && s[0] == p[0] && s[1..] == p[1..] { assert s == [s[0]] + s[1..]; assert p == [p[0]] + p[1..]; }
      }
      s != [] && (p[0] == '?' || p[0] == s[0]) && Glob(s[1..], p[1..])
  }

  /** A pattern without wildcards. */
  predicate Literal(p: string)
  {
    '*' !in p && '?' !in p
  }

  /** The filter as typed, stripped, with `*` appended when it holds neither `*` nor `?`;
      empty exactly when nothing but whitespace was typed, otherwise always a wildcard
      pattern that starts with the stripped text, and the stripped text itself when it already
      holds a wildcard. */
  function NormalizeFilter(typed: string): (f: string)
    ensures f == [] <==> AllSpace(typed)
    ensures f != [] ==> !Literal(f)
    ensures Strip(typed) <= f && |f| <= |Strip(typed)| + 1
    ensures !Literal(Strip(typed)) ==> f == Strip(typed)
  {
    var t := Strip(typed);
    if t != [] && Literal(t) then t + "*" else t
  }

  /** `filtro.lower()`. */
  function Pattern(typed: string): string
  {
    Lower(NormalizeFilter(typed))
  }

  /** `fnmatch.fnmatch(str(arq['path']).lower(), filtro_lower)`. */
  predicate PathMatches(r: Row, pattern: string)
  {
    Glob(Lower(r.path), pattern)
  }

  /** `any(fnmatch(...) for arq in grupo)`. */
  predicate AnyMatch(g: seq<Row>, pattern: string)
  {
    exists k :: 0 <= k < |g| && PathMatches(g[k], pattern)
  }

  /** A `*` pattern matches everything. */
  lemma {:induction false} GlobStar(s: string)
    ensures Glob(s, "*")
  {
    if s != [] {
      GlobStar(s[1..]);
    }
  }

  /** A literal head of a pattern must match a prefix of the name character by character. */
  lemma {:induction false} GlobLiteralHead(s: string, p: string, q: string)
    requires Literal(p)
    ensures Glob(s, p + q) <==> p <= s && Glob(s[|p|..], q)
  {
    if p == [] {
      assert p + q == q;
    } else {
      assert (p + q)[0] == p[0] && (p + q)[1..] == p[1..] + q;
      assert Literal(p[1..]) by {
        assert forall c :: c in p[1..] ==> c in p;
      }
      if s != [] {
        GlobLiteralHead(s[1..], p[1..], q);
        if |p| <= |s| {
          assert s[1..][|p| - 1..] == s[|p|..];
        }
        assert p <= s <==> p[0] == s[0] && p[1..] <= s[1..];
      }
    }
  }

  /** Lower-casing neither creates nor removes a wildcard. */
  lemma LowerLiteral(p: string)
    ensures Literal(Lower(p)) <==> Literal(p)
  {
    assert forall c :: LowerChar(c) == '*' <==> c == '*';
    assert forall c :: LowerChar(c) == '?' <==> c == '?';
    if Literal(p) {
      forall c | c in Lower(p) ensures c != '*' && c != '?' {
        var i :| 0 <= i < |p| && Lower(p)[i] == c;
      }
    } else {
      var i :| 0 <= i < |p| && (p[i] == '*' || p[i] == '?');
      assert Lower(p)[i] in Lower(p);
    }
  }

  /** A filter typed without wildcards is a case-insensitive prefix search: a path matches
      exactly when its lower-cased form starts with the lower-cased stripped filter. */
  lemma FilterIsPrefixSearch(typed: string, path: string)
    requires !AllSpace(typed) && Literal(Strip(typed))
    ensures Glob(Lower(path), Pattern(typed)) <==> Lower(Strip(typed)) <= Lower(path)
  {
    var t, s := Strip(typed), Lower(path);
    var low := Lower(t);
    assert NormalizeFilter(typed) == t + "*";
    assert Pattern(typed) == low + "*" by {
      assert Lower(t + "*") == low + "*";
    }
    LowerLiteral(t);
    GlobLiteralHead(s, low, "*");
    if low <= s {
      GlobStar(s[|low|..]);
    }
  }

  /** Typing the normalised filter back into the box gives the same filter. */
  lemma NormalizeFilterIdempotent(typed: string)
    ensures NormalizeFilter(NormalizeFilter(typed)) == NormalizeFilter(typed)
  {
    var f := NormalizeFilter(typed);
    if f != [] {
      var t := Strip(typed);
      assert f[0] == t[0] && f[|f| - 1] in {t[|t| - 1], '*'};
      assert Strip(f) == f;
    }
  }

  // ---------------------------------------------------------------------------------
  // Groups and entries

  /** An entry of `all_arquivos`: the row and the index of its group. */
  datatype Entry = Entry(arquivo: Row, grupo: nat)

  /** `[[arq] for arq in corrompidos]`: each corrupted row is a group of its own. */
  function Singletons(rows: seq<Row>): seq<seq<Row>>
  {
    seq(|rows|, i requires 0 <= i < |rows| => [rows[i]])
  }

  /** `self.duplicadas` for a context and the three check boxes. */
  function Found(rows: seq<Row>, ctx: Contexto, byDate: bool, incDel: bool, incIgn: bool): seq<seq<Row>>
  {
    if ctx == Corrompidos then Singletons(BuscarCorrompidos(rows, None))
    else BuscarDuplicadas(rows, ctx, byDate, incDel, incIgn)
  }

  /** The groups with at least one matching path, in their order. */
  function KeptGroups(groups: seq<seq<Row>>, pattern: string): (kept: seq<seq<Row>>)
    ensures |kept| <= |groups|
  {
    if groups == [] then []
    else
      var last := groups[|groups| - 1];
      KeptGroups(groups[..|groups| - 1], pattern) + (if AnyMatch(last, pattern) then [last] else [])
  }

  /** `self.duplicadas_filtradas`: every group when the filter is empty. */
  function Filtered(groups: seq<seq<Row>>, typed: string): seq<seq<Row>>
  {
    if NormalizeFilter(typed) == [] then groups else KeptGroups(groups, Pattern(typed))
  }

  /** The filter keeps a group, whole, exactly when one of its paths matches. */
  lemma {:induction false} KeptGroupsSpec(groups: seq<seq<Row>>, pattern: string)
    ensures forall g :: g in KeptGroups(groups, pattern) <==> g in groups && AnyMatch(g, pattern)
  {
    if groups != [] {
      var init := groups[..|groups| - 1];
      KeptGroupsSpec(init, pattern);
      assert groups == init + [groups[|groups| - 1]];
    }
  }

  /** The entries of one group, tagged with its index. */
  function Tagged(g: seq<Row>, idx: nat): (es: seq<Entry>)
    ensures |es| == |g|
    ensures forall k :: 0 <= k < |g| ==> es[k] == Entry(g[k], idx)
  {
    seq(|g|, k requires 0 <= k < |g| => Entry(g[k], idx))
  }

  /** `all_arquivos`: the groups one after the other. */
  function Flatten(groups: seq<seq<Row>>): seq<Entry>
  {
    if groups == [] then []
    else Flatten(groups[..|groups| - 1]) + Tagged(groups[|groups| - 1], |groups| - 1)
  }

  /** The number of rows in all the groups. */
  function TotalSize(groups: seq<seq<Row>>): nat
  {
    if groups == [] then 0 else TotalSize(groups[..|groups| - 1]) + |groups[|groups| - 1]|
  }

  /** The entry list holds one entry per row of every group, tagged with its group, each
      group's entries together and the groups in order. */
  lemma {:induction false} FlattenSpec(groups: seq<seq<Row>>)
    ensures |Flatten(groups)| == TotalSize(groups)
    ensures forall e :: e in Flatten(groups) <==> e.grupo < |groups| && e.arquivo in groups[e.grupo]
    ensures forall i, j :: 0 <= i <= j < |Flatten(groups)| ==> Flatten(groups)[i].grupo <= Flatten(groups)[j].grupo
  {
    if groups != [] {
      var n := |groups| - 1;
      var init, last := groups[..n], groups[n];
      FlattenSpec(init);
      var head, tail := Flatten(init), Tagged(last, n);
      assert Flatten(groups) == head + tail;
      forall e ensures e in tail <==> e.grupo == n && e.arquivo in last {
        if e.grupo == n && e.arquivo in last {
          var k :| 0 <= k < |last| && last[k] == e.arquivo;
          assert tail[k] == e;
        }
      }
      assert forall g :: 0 <= g < n ==> init[g] == groups[g];
      forall i, j | 0 <= i <= j < |head + tail| ensures (head + tail)[i].grupo <= (head + tail)[j].grupo {
        if i < |head| && j >= |head| {
          assert head[i] in head;
        }
      }
    }
  }

  /** In the corrupted-files view the entries are the corrupted rows in order, entry `i`
      forming group `i` on its own. */
  lemma {:induction false} SingletonEntries(rows: seq<Row>)
    ensures Flatten(Singletons(rows)) == seq(|rows|, i requires 0 <= i < |rows| => Entry(rows[i], i))
  {
    if rows != [] {
      var n := |rows| - 1;
      SingletonEntries(rows[..n]);
      assert Singletons(rows)[..n] == Singletons(rows[..n]);
    }
  }

  // ---------------------------------------------------------------------------------
  // Pages

  /** The choices of the (read-only) per-page box. */
  const PER_PAGE_CHOICES: set<nat> := {50, 100, 200}

  /** `a * b <= m` exactly when `a <= m // b`. */
  lemma MulDivBound(a: nat, b: nat, m: nat)
    requires b > 0
    ensures a * b <= m <==> a <= m / b
  {
    var q, r := m / b, m % b;
    assert m == q * b + r && r < b;
    if a <= q {
      assert a * b <= q * b;
    } else {
      assert a * b >= (q + 1) * b;
    }
  }

  /** `max(1, (n - 1) // per_page + 1)` (floor division; for a positive divisor it agrees
      with Dafny's): one page for an empty list, otherwise the ceiling of `n / per_page`. */
  function TotalPages(n: nat, perPage: nat): (t: nat)
    requires perPage > 0
    ensures t >= 1
    ensures n == 0 ==> t == 1
    ensures n > 0 ==> (t - 1) * perPage < n <= t * perPage
  {
    var t := (n - 1) / perPage + 1;
    if n > 0 then
      MulDivBound(t - 1, perPage, n - 1);
      MulDivBound(t, perPage, n - 1);
      t
    else
      assert t == 0;
      1
  }

  /** `all_arquivos[start:end]` with `start = page * per_page` and
      `end = min(start + per_page, len(all_arquivos))`: at most a page of consecutive entries
      from `start` on. */
  function PageSlice(es: seq<Entry>, page: nat, perPage: nat): (shown: seq<Entry>)
    requires perPage > 0
    ensures |shown| <= perPage
    ensures forall k :: 0 <= k < |shown| ==> page * perPage + k < |es| && shown[k] == es[page * perPage + k]
    ensures page * perPage + perPage <= |es| ==> |shown| == perPage
    ensures page * perPage < |es| < page * perPage + perPage ==> |shown| == |es| - page * perPage
    ensures |es| <= page * perPage ==> shown == []
  {
    var start := page * perPage;
    var end := if start + perPage < |es| then start + perPage else |es|;
    if start < end then es[start..end] else []
  }

  /** Every page the page count admits shows at least one entry. */
  lemma PageInRangeNonEmpty(es: seq<Entry>, page: nat, perPage: nat)
    requires perPage > 0 && es != [] && page < TotalPages(|es|, perPage)
    ensures PageSlice(es, page, perPage) != []
  {
    var t := TotalPages(|es|, perPage);
    assert page * perPage <= (t - 1) * perPage;
  }

  /** Entry `j` is shown on page `j // per_page`, at position `j % per_page`, and that page is
      one the page count admits. */
  lemma PageOfEntry(es: seq<Entry>, j: nat, perPage: nat)
    requires perPage > 0 && j < |es|
    ensures j / perPage < TotalPages(|es|, perPage)
    ensures var shown := PageSlice(es, j / perPage, perPage);
      j % perPage < |shown| && shown[j % perPage] == es[j]
  {
    var p, t := j / perPage, TotalPages(|es|, perPage);
    assert j == p * perPage + j % perPage;
    MulDivBound(p, perPage, |es| - 1);
    MulDivBound(t - 1, perPage, |es| - 1);
  }

  /** `_next_page` moves on exactly when the next page has an entry, and then stays within
      the page count. */
  lemma NextPageInRange(n: nat, page: nat, perPage: nat)
    requires perPage > 0 && (page + 1) * perPage < n
    ensures page + 1 < TotalPages(n, perPage)
  {
    MulDivBound(page + 1, perPage, n - 1);
  }

  /** The entry accepted by `_on_page_entry`: a 1-based page number within the page count. */
  predicate EntryAccepted(typed: int, totalPages: int)
  {
    0 <= typed - 1 < totalPages
  }

  /** With 100 entries counted at 50 per page, switching the box to 100 keeps the old count
      of 2 pages, so typing page 2 is accepted and shows an empty page. */
  lemma StalePageCountShowsEmptyPage(es: seq<Entry>)
    requires |es| == 100
    ensures TotalPages(|es|, 50) == 2 && TotalPages(|es|, 100) == 1
    ensures EntryAccepted(2, TotalPages(|es|, 50))
    ensures PageSlice(es, 2 - 1, 100) == []
  {
  }

  // ---------------------------------------------------------------------------------
  // Selection and deletion

  /** `[i for i, var in enumerate(self.check_vars) if var.get()]`: the ticked indices, in
      increasing order. */
  function Selecionados(checks: seq<bool>): (sel: seq<nat>)
    ensures forall i :: 0 <= i < |checks| ==> (i in sel <==> checks[i])
    ensures forall k :: 0 <= k < |sel| ==> sel[k] < |checks| && checks[sel[k]]
    ensures forall a, b :: 0 <= a < b < |sel| ==> sel[a] < sel[b]
  {
    if checks == [] then []
    else
      var n := |checks| - 1;
      var init := Selecionados(checks[..n]);
      assert forall i :: i in init ==> i < n;
      init + (if checks[n] then [n] else [])
  }

  /** The paths the deletion loop trashes: those of the selected entries whose `send2trash`
      does not raise, in selection order. */
  function Trashed(es: seq<Entry>, sel: seq<nat>, failing: set<string>): seq<string>
    requires forall k :: 0 <= k < |sel| ==> sel[k] < |es|
  {
    if sel == [] then []
    else
      var p := es[sel[|sel| - 1]].arquivo.path;
      Trashed(es, sel[..|sel| - 1], failing) + (if p in failing then [] else [p])
  }

  /** A path is trashed exactly when a selected entry has it and its trash call succeeds. */
  lemma {:induction false} TrashedSpec(es: seq<Entry>, sel: seq<nat>, failing: set<string>)
    requires forall k :: 0 <= k < |sel| ==> sel[k] < |es|
    ensures forall p :: p in Trashed(es, sel, failing) <==>
      p !in failing && exists k :: 0 <= k < |sel| && es[sel[k]].arquivo.path == p
  {
    if sel != [] {
      var n := |sel| - 1;
      TrashedSpec(es, sel[..n], failing);
      forall p | p !in failing && (exists k :: 0 <= k < |sel| && es[sel[k]].arquivo.path == p)
        ensures p in Trashed(es, sel, failing)
      {
        var k :| 0 <= k < |sel| && es[sel[k]].arquivo.path == p;
        if k < n {
          assert sel[..n][k] == sel[k];
        }
      }
    }
  }

  /** One `marcar_deletado` per path, in order. */
  function MarkedAll(rows: seq<Row>, paths: seq<string>): seq<Row>
  {
    if paths == [] then rows
    else MarkedDeleted(MarkedAll(rows, paths[..|paths| - 1]), paths[|paths| - 1])
  }

  /** The table after the loop: exactly the rows with a trashed path are marked deleted, and
      nothing else changes. */
  lemma {:induction false} MarkedAllSpec(rows: seq<Row>, paths: seq<string>)
    ensures |MarkedAll(rows, paths)| == |rows|
    ensures forall i :: 0 <= i < |rows| ==>
      MarkedAll(rows, paths)[i] == if rows[i].path in paths then rows[i].(deletado := true) else rows[i]
  {
    if paths != [] {
      var n := |paths| - 1;
      MarkedAllSpec(rows, paths[..n]);
      assert forall p :: p in paths <==> p in paths[..n] || p == paths[n];
    }
  }

  /** `excluir_selecionados` marks a row deleted only when a selected entry has its path and
      that path went to the trash, and marks every row of such a path. */
  lemma DeletionFollowsTrash(rows: seq<Row>, es: seq<Entry>, sel: seq<nat>, failing: set<string>, i: nat)
    requires forall k :: 0 <= k < |sel| ==> sel[k] < |es|
    requires i < |rows|
    ensures |MarkedAll(rows, Trashed(es, sel, failing))| == |rows|
    ensures MarkedAll(rows, Trashed(es, sel, failing))[i].deletado <==>
      rows[i].deletado
      || (rows[i].path !in failing && exists k :: 0 <= k < |sel| && es[sel[k]].arquivo.path == rows[i].path)
  {
    TrashedSpec(es, sel, failing);
    MarkedAllSpec(rows, Trashed(es, sel, failing));
  }

  /** The scan that groups the filtered groups' rows into entries. */
  method FlattenGroups(groups: seq<seq<Row>>) returns (all: seq<Entry>)
    ensures all == Flatten(groups)
  {
    all := [];
    for g := 0 to |groups|
      invariant all == Flatten(groups[..g])
    {
      assert groups[..g + 1][..g] == groups[..g];
      ghost var before := all;
      for k := 0 to |groups[g]|
        invariant all == before + Tagged(groups[g][..k], g)
      {
        all := all + [Entry(groups[g][k], g)];
        assert Tagged(groups[g][..k + 1], g) == Tagged(groups[g][..k], g) + [Entry(groups[g][k], g)];
      }
      assert groups[g][..|groups[g]|] == groups[g];
    }
    assert groups[..|groups|] == groups;
  }

  /** The loop that keeps the groups with a matching path. */
  method FilterGroups(groups: seq<seq<Row>>, pattern: string) returns (kept: seq<seq<Row>>)
    ensures kept == KeptGroups(groups, pattern)
  {
    kept := [];
    for i := 0 to |groups|
      invariant kept == KeptGroups(groups[..i], pattern)
    {
      assert groups[..i + 1][..i] == groups[..i];
      if exists k :: 0 <= k < |groups[i]| && PathMatches(groups[i][k], pattern) {
        kept := kept + [groups[i]];
      }
    }
    assert groups[..|groups|] == groups;
  }

  /** `if filtro: ... else: self.duplicadas_filtradas = self.duplicadas`. */
  method ApplyFilter(groups: seq<seq<Row>>, typed: string) returns (kept: seq<seq<Row>>)
    ensures kept == Filtered(groups, typed)
  {
    var filtro := NormalizeFilter(typed);
    if filtro != [] {
      kept := FilterGroups(groups, Lower(filtro));
    } else {
      kept := groups;
    }
  }

  /** The queries and loops of `_load_duplicadas`, on the table's rows and the controls. */
  method LoadGroups(rows: seq<Row>, ctx: Contexto, byDate: bool, incDel: bool, incIgn: bool, typed: string, perPage: nat)
    returns (found: seq<seq<Row>>, kept: seq<seq<Row>>, all: seq<Entry>, total: nat, checks: seq<bool>)
    requires perPage > 0
    ensures found == Found(rows, ctx, byDate, incDel, incIgn)
    ensures kept == Filtered(found, typed)
    ensures all == Flatten(kept) && Unticked(checks, all)
    ensures total == TotalPages(|all|, perPage)
  {
    if ctx == Corrompidos {
      found := Singletons(BuscarCorrompidos(rows, None));
    } else {
      found := BuscarDuplicadas(rows, ctx, byDate, incDel, incIgn);
    }
    kept := ApplyFilter(found, typed);
    all := FlattenGroups(kept);
    total := TotalPages(|all|, perPage);
    checks := FreshChecks(|all|);
  }

  /** One check box per entry, none ticked. */
  predicate Unticked(checks: seq<bool>, es: seq<Entry>)
  {
    |checks| == |es| && forall i :: 0 <= i < |checks| ==> !checks[i]
  }

  /** `[tk.BooleanVar() for _ in self.all_arquivos]`: one fresh, unticked check box per
      entry. */
  method FreshChecks(n: nat) returns (checks: seq<bool>)
    ensures |checks| == n && forall i :: 0 <= i < n ==> !checks[i]
  {
    checks := seq(n, _ => false);
  }

  /** The loop of `excluir_selecionados` over the selected entries: `send2trash` then
      `marcar_deletado` for each path, a raising trash call skipping only its own entry. */
  method TrashSelected(es: seq<Entry>, sel: seq<nat>, failing: set<string>, conn: Store) returns (trashed: seq<string>)
    requires forall k :: 0 <= k < |sel| ==> sel[k] < |es|
    modifies conn
    ensures trashed == Trashed(es, sel, failing)
    ensures conn.rows == MarkedAll(old(conn.rows), trashed) && conn.hasIgnorado == old(conn.hasIgnorado)
    ensures conn.committed == if trashed == [] then old(conn.committed) else conn.rows
  {
    trashed := [];
    for n := 0 to |sel|
      invariant conn.hasIgnorado == old(conn.hasIgnorado)
      invariant trashed == Trashed(es, sel[..n], failing)
      invariant conn.rows == MarkedAll(old(conn.rows), trashed)
      invariant conn.committed == if trashed == [] then old(conn.committed) else conn.rows
    {
      trashed := TrashOne(es, sel, n, failing, conn, trashed, old(conn.rows), old(conn.committed));
    }
    assert sel[..|sel|] == sel;
  }

  /** One iteration of that loop, for the `n`-th selected entry. */
  method TrashOne(es: seq<Entry>, sel: seq<nat>, n: nat, failing: set<string>, conn: Store, trashed: seq<string>,
                  ghost rows0: seq<Row>, ghost committed0: seq<Row>)
    returns (trashed': seq<string>)
    requires forall k :: 0 <= k < |sel| ==> sel[k] < |es|
    requires n < |sel| && trashed == Trashed(es, sel[..n], failing)
    requires conn.rows == MarkedAll(rows0, trashed)
    requires conn.committed == if trashed == [] then committed0 else conn.rows
    modifies conn
    ensures trashed' == Trashed(es, sel[..n + 1], failing)
    ensures conn.rows == MarkedAll(rows0, trashed') && conn.hasIgnorado == old(conn.hasIgnorado)
    ensures conn.committed == if trashed' == [] then committed0 else conn.rows
  {
    assert sel[..n + 1][..n] == sel[..n];
    var path := es[sel[n]].arquivo.path;
    trashed' := trashed;
    if path !in failing {
      MarcarDeletado(conn, path);
      trashed' := trashed + [path];
      assert trashed'[..|trashed'| - 1] == trashed;
    }
  }

  // ---------------------------------------------------------------------------------
  // The viewer window

  /** `DuplicadasDBApp`: the viewer's state; `perPage` is the value of the per-page box. */
  class DuplicadasDBApp {
    var conn: Store
    var contexto: Contexto
    /** The text of the path entry box (`var_path_filter`), as typed so far; it is applied
        only by a reload. */
    var pathFilter: string
    var considerarData: bool
    var considerarDeletados: bool
    var considerarIgnorados: bool
    var perPage: nat
    var page: nat
    var totalPages: nat
    var duplicadas: seq<seq<Row>>
    var duplicadasFiltradas: seq<seq<Row>>
    var allArquivos: seq<Entry>
    var checkVars: seq<bool>

    /** The box offers only its choices, and there is one check box per entry. */
    predicate Valid()
      reads this
    {
      perPage in PER_PAGE_CHOICES && |checkVars| == |allArquivos|
    }

    /** The stored page count is the one for the current entries and page size. */
    predicate Counted()
      reads this
      requires perPage > 0
    {
      totalPages == TotalPages(|allArquivos|, perPage)
    }

    /** The current page is one the stored page count admits. */
    predicate PageInRange()
      reads this
    {
      page < totalPages
    }

    /** `__init__`: the migration, the defaults of the controls, then `_load_duplicadas`. */
    constructor (conn: Store)
      modifies conn
      ensures this.conn == conn && conn.hasIgnorado
      ensures old(conn.hasIgnorado) ==> conn.rows == old(conn.rows) && conn.committed == old(conn.committed)
      ensures !old(conn.hasIgnorado) ==> conn.rows == WithIgnoradoDefault(old(conn.rows)) && conn.committed == conn.rows
      ensures duplicadas == Found(conn.rows, Imagens, true, true, true)
      ensures contexto == Imagens && pathFilter == [] && perPage == 50 && page == 0
      ensures considerarData && considerarDeletados && considerarIgnorados
      ensures duplicadasFiltradas == duplicadas
      ensures allArquivos == Flatten(duplicadas) && Unticked(checkVars, allArquivos)
      ensures Valid() && Counted() && PageInRange()
    {
      this.conn := conn;
      contexto, pathFilter, perPage, page := Imagens, [], 50, 0;
      considerarData, considerarDeletados, considerarIgnorados := true, true, true;
      new;
      EnsureIgnoradoColumn(conn);
      LoadDuplicadas();
    }

    /** `_load_duplicadas`: the groups for the context and the check boxes, the groups the
        path filter keeps, their entries, the page count and fresh check boxes. The current
        page is left as it was. (The table and the controls are not modified; `old` names
        the values the load read.) */
    method LoadDuplicadas()
      requires perPage > 0
      modifies this`duplicadas, this`duplicadasFiltradas, this`allArquivos, this`totalPages, this`checkVars
      ensures duplicadas
        == Found(old(conn.rows), old(contexto), old(considerarData), old(considerarDeletados), old(considerarIgnorados))
      ensures duplicadasFiltradas == Filtered(duplicadas, old(pathFilter))
      ensures allArquivos == Flatten(duplicadasFiltradas) && Unticked(checkVars, allArquivos)
      ensures Counted()
      ensures old(Valid()) ==> Valid()
    {
      duplicadas, duplicadasFiltradas, allArquivos, totalPages, checkVars :=
        LoadGroups(conn.rows, contexto, considerarData, considerarDeletados, considerarIgnorados, pathFilter, perPage);
    }

    /** `_show_page`'s slice: the entries of the current page. */
    method ShowPage() returns (shown: seq<Entry>)
      requires perPage > 0
      ensures shown == PageSlice(allArquivos, page, perPage)
      ensures Counted() && PageInRange() && allArquivos != [] ==> shown != []
    {
      var start := page * perPage;
      var end := if start + perPage < |allArquivos| then start + perPage else |allArquivos|;
      shown := if start < end then allArquivos[start..end] else [];
      if Counted() && PageInRange() && allArquivos != [] {
        PageInRangeNonEmpty(allArquivos, page, perPage);
      }
    }

    /** `_prev_page`: back one page, never below the first. */
    method PrevPage()
      modifies this`page
      ensures page == if old(page) > 0 then old(page) - 1 else old(page)
      ensures old(PageInRange()) ==> PageInRange()
      ensures old(Valid()) ==> Valid()
    {
      if page > 0 {
        page := page - 1;
      }
    }

    /** `_next_page`: on one page exactly when the next page has an entry. The stored page
        count is not read; while it is current, it is never passed. */
    method NextPage()
      requires perPage > 0
      modifies this`page
      ensures page == if (old(page) + 1) * perPage < |allArquivos| then old(page) + 1 else old(page)
      ensures Counted() && old(PageInRange()) ==> PageInRange()
      ensures old(Valid()) ==> Valid()
    {
      if (page + 1) * perPage < |allArquivos| {
        if Counted() {
          NextPageInRange(|allArquivos|, page, perPage);
        }
        page := page + 1;
      }
    }

    /** `_on_page_entry`, given the result of `int()` on the typed text (`None` where it
        raises): the page changes exactly when the number is between 1 and the page count. */
    method OnPageEntry(typed: Option<int>) returns (accepted: bool)
      modifies this`page
      ensures accepted <==> typed.Some? && EntryAccepted(typed.value, totalPages)
      ensures accepted ==> page == typed.value - 1 && PageInRange()
      ensures !accepted ==> page == old(page)
      ensures old(Valid()) ==> Valid()
    {
      accepted := false;
      if typed.Some? {
        var p := typed.value - 1;
        if 0 <= p < totalPages {
          page := p;
          accepted := true;
        }
      }
    }

    /** `_on_per_page_change` as written: back to the first page, with the page count of
        the previous page size kept. */
    method OnPerPageChange(choice: nat)
      requires choice in PER_PAGE_CHOICES
      modifies this`perPage, this`page
      ensures perPage == choice && page == 0 && totalPages == old(totalPages)
      ensures old(Valid()) ==> Valid()
    {
      perPage := choice;
      page := 0;
    }

    /** `_on_per_page_change` with the page count recomputed for the new page size. */
    method OnPerPageChangeRecounted(choice: nat)
      requires choice in PER_PAGE_CHOICES
      modifies this`perPage, this`page, this`totalPages
      ensures perPage == choice && page == 0
      ensures Counted() && PageInRange()
      ensures old(Valid()) ==> Valid()
    {
      perPage := choice;
      page := 0;
      totalPages := TotalPages(|allArquivos|, perPage);
    }

    /** `_on_contexto_change`: the new context, the first page, and a reload. */
    method OnContextoChange(ctx: Contexto)
      requires perPage > 0
      modifies this`contexto, this`page, this`duplicadas, this`duplicadasFiltradas, this`allArquivos,
               this`totalPages, this`checkVars
      ensures contexto == ctx && page == 0 && Counted() && PageInRange()
      ensures duplicadas == Found(conn.rows, ctx, considerarData, considerarDeletados, considerarIgnorados)
      ensures duplicadasFiltradas == Filtered(duplicadas, pathFilter)
      ensures allArquivos == Flatten(duplicadasFiltradas) && Unticked(checkVars, allArquivos)
      ensures old(Valid()) ==> Valid()
    {
      contexto := ctx;
      page := 0;
      LoadDuplicadas();
    }

    /** Typing in the path entry box: the box's text changes and nothing is reloaded, so
        the groups shown stay those of the text last applied. */
    method EditFilter(typed: string)
      modifies this`pathFilter
      ensures pathFilter == typed
      ensures old(Valid()) ==> Valid()
    {
      pathFilter := typed;
    }

    /** Typing `typed` into the path box and pressing Enter or the search button
        (`_on_path_filter`): the first page and a reload with the new filter text. */
    method OnPathFilter(typed: string)
      requires perPage > 0
      modifies this`pathFilter, this`page, this`duplicadas, this`duplicadasFiltradas, this`allArquivos,
               this`totalPages, this`checkVars
      ensures pathFilter == typed && page == 0 && Counted() && PageInRange()
      ensures duplicadas == Found(conn.rows, contexto, considerarData, considerarDeletados, considerarIgnorados)
      ensures duplicadasFiltradas == Filtered(duplicadas, typed)
      ensures allArquivos == Flatten(duplicadasFiltradas) && Unticked(checkVars, allArquivos)
      ensures old(Valid()) ==> Valid()
    {
      pathFilter := typed;
      page := 0;
      LoadDuplicadas();
    }

    /** `_selecionar_todos_filtro`: nothing with an empty filter; otherwise exactly the
        entries whose path matches and that are not deleted end up ticked. */
    method SelecionarTodosFiltro()
      requires |checkVars| == |allArquivos|
      modifies this`checkVars
      ensures AllSpace(pathFilter) ==> checkVars == old(checkVars)
      ensures !AllSpace(pathFilter) ==>
        |checkVars| == |allArquivos|
        && forall i :: 0 <= i < |allArquivos| ==>
             (checkVars[i] <==> PathMatches(allArquivos[i].arquivo, Pattern(pathFilter)) && !allArquivos[i].arquivo.deletado)
      ensures old(Valid()) ==> Valid()
    {
      var filtro := NormalizeFilter(pathFilter);
      var pattern := Lower(filtro);
      if filtro == [] {
        return;
      }
      for i := 0 to |allArquivos|
        invariant |checkVars| == |allArquivos|
        invariant forall j :: 0 <= j < i ==>
          (checkVars[j] <==> PathMatches(allArquivos[j].arquivo, pattern) && !allArquivos[j].arquivo.deletado)
      {
        checkVars := checkVars[i := PathMatches(allArquivos[i].arquivo, pattern) && !allArquivos[i].arquivo.deletado];
      }
    }

    /** `excluir_selecionados`, given the confirmation answer and the paths whose
        `send2trash` raises: with a selection and a yes, every selected path is tried in
        order, a path is marked deleted only after it went to the trash, a failure does not
        stop the others, and the window reloads. */
    method ExcluirSelecionados(confirmed: bool, failing: set<string>) returns (trashed: seq<string>)
      requires Valid()
      modifies this`duplicadas, this`duplicadasFiltradas, this`allArquivos, this`totalPages, this`checkVars, conn
      ensures var sel := Selecionados(old(checkVars));
        trashed == if sel == [] || !confirmed then [] else Trashed(old(allArquivos), sel, failing)
      ensures conn.rows == MarkedAll(old(conn.rows), trashed) && conn.hasIgnorado == old(conn.hasIgnorado)
      ensures conn.committed == if trashed == [] then old(conn.committed) else conn.rows
      ensures Selecionados(old(checkVars)) == [] || !confirmed ==>
        && checkVars == old(checkVars) && allArquivos == old(allArquivos) && totalPages == old(totalPages)
        && duplicadas == old(duplicadas) && duplicadasFiltradas == old(duplicadasFiltradas)
      ensures Selecionados(old(checkVars)) != [] && confirmed ==>
        duplicadas == Found(conn.rows, contexto, considerarData, considerarDeletados, considerarIgnorados)
      ensures Selecionados(old(checkVars)) != [] && confirmed ==> duplicadasFiltradas == Filtered(duplicadas, pathFilter)
      ensures Selecionados(old(checkVars)) != [] && confirmed ==>
        allArquivos == Flatten(duplicadasFiltradas) && Unticked(checkVars, allArquivos) && Counted()
      ensures Valid()
    {
      var sel := Selecionados(checkVars);
      trashed := [];
      if sel != [] && confirmed {
        trashed := TrashAndReload(sel, failing);
      }
    }

    /** The confirmed branch of `excluir_selecionados`: the trash loop over the selection, then
        the reload. */
    method TrashAndReload(sel: seq<nat>, failing: set<string>) returns (trashed: seq<string>)
      requires Valid() && forall k :: 0 <= k < |sel| ==> sel[k] < |allArquivos|
      modifies this`duplicadas, this`duplicadasFiltradas, this`allArquivos, this`totalPages, this`checkVars, conn
      ensures trashed == Trashed(old(allArquivos), sel, failing)
      ensures duplicadas == Found(conn.rows, contexto, considerarData, considerarDeletados, considerarIgnorados)
      ensures duplicadasFiltradas == Filtered(duplicadas, pathFilter)
      ensures conn.rows == MarkedAll(old(conn.rows), trashed) && conn.hasIgnorado == old(conn.hasIgnorado)
      ensures conn.committed == if trashed == [] then old(conn.committed) else conn.rows
      ensures allArquivos == Flatten(duplicadasFiltradas) && Unticked(checkVars, allArquivos) && Counted()
      ensures Valid()
    {
      trashed := TrashSelected(allArquivos, sel, failing, conn);
      LoadDuplicadas();
    }
  }
}
