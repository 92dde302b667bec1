/** `main` of encontra_repetidos_sqlite.py (lines 333-370): the mode dispatch between the full
    scan, the resumed scan and the delta sync. */
module Scan {
  import opened Wrappers
  import opened Text
  import opened Catalog
  import opened Indexer
  import opened DeltaSync

  /** How a run ends: normally, at the invalid-choice exit of the prompt, or with an exception
      escaping the delta sync (which skips the final commit). */
  datatype Outcome = Finished | InvalidChoice | Crashed

  /** `main`, given the walk of the target folder and the line typed at the prompt (read only
      when the table is not empty). `create_table` commits first. */
  method RunScan(disk: seq<DiskFile>, store: Store, input: string) returns (outcome: Outcome)
    modifies store`rows, store`committed
    ensures old(store.rows) == [] ==>
      outcome == Finished && store.committed == store.rows == CollectRows(disk, {}, store.hasIgnorado)
    ensures old(store.rows) != [] && Strip(input) == "1" ==>
      outcome == Finished && store.committed == store.rows == CollectRows(disk, {}, store.hasIgnorado)
    ensures old(store.rows) != [] && Strip(input) == "2" ==>
      outcome == Finished
      && store.committed == store.rows == old(store.rows) + CollectRows(disk, Paths(old(store.rows)), store.hasIgnorado)
    ensures old(store.rows) != [] && Strip(input) == "3" ==>
      var synced := SyncRows(Pruned(old(store.rows), disk), disk, store.hasIgnorado);
      && (outcome == Finished <==> synced.Some?)
      && (outcome == Finished ==> store.committed == store.rows == synced.value)
      && (outcome != Finished ==> outcome == Crashed && store.committed == Pruned(old(store.rows), disk))
    ensures old(store.rows) != [] && Strip(input) !in {"1", "2", "3"} ==>
      outcome == InvalidChoice && store.committed == store.rows == old(store.rows)
  {
    store.Commit();
    var resume := Resume({}, 0, Full);
    if |store.rows| > 0 {
      var r := AskResetTable(store, input);
      if r.None? {
        return InvalidChoice;
      }
      resume := r.value;
    }
    outcome := Dispatch(disk, store, resume);
    if outcome == Crashed && Paths(old(store.rows)) <= DiskPaths(disk) {
      WithoutAbsentPaths(old(store.rows), Paths(old(store.rows)) - DiskPaths(disk));
    }
  }

  /** The `try` block of `main`: the scan the chosen mode runs, then the final commit, which an
      exception escaping the delta sync skips. */
  method Dispatch(disk: seq<DiskFile>, store: Store, resume: Resume) returns (outcome: Outcome)
    modifies store`rows, store`committed
    ensures resume.mode != Delta ==>
      outcome == Finished
      && store.committed == store.rows == old(store.rows) + CollectRows(disk, resume.processed, store.hasIgnorado)
    ensures resume.mode == Delta ==>
      var synced := SyncRows(Pruned(old(store.rows), disk), disk, store.hasIgnorado);
      && (outcome == Finished <==> synced.Some?)
      && (outcome == Finished ==> store.committed == store.rows == synced.value)
      && (outcome != Finished ==>
            && outcome == Crashed
            && store.committed == (if Paths(old(store.rows)) <= DiskPaths(disk) then old(store.committed) else Pruned(old(store.rows), disk)))
  {
    outcome := Finished;
    if resume.mode == Delta {
      var ok := UpdateOnlyChanges(disk, store);
      if !ok {
        return Crashed;
      }
    } else {
      var _ := CollectMetadataToDb(disk, store, resume.processed, resume.already);
    }
    store.Commit();
  }

  /** Choosing to continue after a complete scan finds nothing left to do: every media file
      whose extraction succeeded is catalogued, so only the files that failed are tried again. */
  lemma {:induction false} ContinueRetriesOnlyFailures(disk: seq<DiskFile>, processed: set<string>, hasIgnorado: bool)
    ensures var done := Paths(CollectRows(disk, processed, hasIgnorado)) + processed;
      forall f :: f in disk && Candidate(f, done) ==> Meta(f).None? && f.path !in processed
  {
    CollectRowsSpec(disk, processed, hasIgnorado);
    var added := CollectRows(disk, processed, hasIgnorado);
    assert forall f :: f in disk && Meta(f).Some? && Candidate(f, processed) ==> f.path in Paths(added) by {
      forall f | f in disk && Meta(f).Some? && Candidate(f, processed) ensures f.path in Paths(added) {
        assert NewRow(Meta(f).value, hasIgnorado) in added;
      }
    }
  }
}
