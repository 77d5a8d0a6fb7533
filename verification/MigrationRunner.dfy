/** `migrate` and `status` run alone on one connection, statement by statement. */
module MigrationRunner {
  import opened Sequences
  import opened Migrations

  /** Which statement of a file's transaction fails, if any. */
  datatype Fault = NoFault | BeginFails | SqlFails | ResetFails | InsertFails | CommitFails

  /** Whether the two statements fail whose failure is swallowed. */
  datatype CleanUp = CleanUp(rollbackFails: bool, unlockFails: bool)

  datatype RunResult =
    | Done(applied: seq<string>, all: seq<string>)
    | Mismatched(k: nat)
    | Failed(k: nat)

  datatype FileStatus = FileStatus(version: string, name: string, applied: bool)

  ghost predicate IsVersions(versions: seq<string>, files: seq<MigrationFile>) {
    |versions| == |files| && forall k | 0 <= k < |files| :: versions[k] == files[k].version
  }

  /** Every file is tracked, with its own checksum. */
  ghost predicate AllTracked(files: seq<MigrationFile>, t: Table) {
    forall k | 0 <= k < |files| :: files[k].version in t && t[files[k].version].checksum == files[k].checksum
  }

  lemma CompleteRunTracksAll(files: seq<MigrationFile>, t: Table)
    requires DistinctVersions(files) && NoMismatch(files, t)
    ensures AllTracked(files, Recorded(t, Pending(files, t)))
  {
    var p := Pending(files, t);
    forall k | 0 <= k < |files|
      ensures files[k].version in Recorded(t, p) && Recorded(t, p)[files[k].version].checksum == files[k].checksum
    {
      PendingMembers(files, t, files[k]);
      RecordedKeys(t, p, files[k].version);
      forall m | 0 <= m < |p| && p[m].version == files[k].version ensures p[m] == files[k] {
        PendingMembers(files, t, p[m]);
      }
      if files[k] in p {
        RecordedRow(t, p, files[k]);
      } else {
        assert !Mismatch(files[k], t);
      }
    }
  }

  /** No transaction of an untracked file before the `stop`-th fails. */
  ghost predicate FaultFree(files: seq<MigrationFile>, faults: seq<Fault>, t: Table, stop: nat)
    requires stop <= |files| == |faults|
  {
    forall i | 0 <= i < stop && files[i].version !in t :: faults[i].NoFault?
  }

  class Connection {
    var hasTable: bool
    var table: Table
    var log: seq<MigrationFile>
    var locked: bool
    var inTransaction: bool
    var ran: seq<MigrationFile>
    var inserted: seq<MigrationFile>

    ghost predicate Idle()
      reads this
    {
      !locked && !inTransaction
    }

    method Begin(fails: bool) returns (ok: bool)
      requires !inTransaction
      modifies this`inTransaction, this`ran, this`inserted
      ensures ok == !fails && inTransaction == ok && (ok ==> ran == [] && inserted == [])
    {
      if fails { return false; }
      inTransaction, ran, inserted := true, [], [];
      ok := true;
    }

    method Run(file: MigrationFile, fails: bool) returns (ok: bool)
      requires inTransaction
      modifies this`ran
      ensures ok == !fails && (ok ==> ran == old(ran) + [file])
    {
      if fails { return false; }
      ran := ran + [file];
      ok := true;
    }

    /** The version column is the primary key, so a second row for a version is refused. */
    method InsertRow(file: MigrationFile, fails: bool) returns (ok: bool)
      requires inTransaction
      modifies this`inserted
      ensures ok == (!fails && hasTable && file.version !in table)
      ensures ok ==> inserted == old(inserted) + [file]
    {
      if fails || !hasTable || file.version in table { return false; }
      inserted := inserted + [file];
      ok := true;
    }

    method Commit(fails: bool) returns (ok: bool)
      requires inTransaction
      modifies this
      ensures ok == !fails && hasTable == old(hasTable) && locked == old(locked)
      ensures ok ==> !inTransaction && log == old(log + ran) && table == Recorded(old(table), old(inserted))
      ensures !ok ==> inTransaction && log == old(log) && table == old(table)
    {
      if fails { return false; }
      log := log + ran;
      table := Recorded(table, inserted);
      inTransaction := false;
      ok := true;
    }

    /** A failure is swallowed, and the transaction stays open. */
    method Rollback(fails: bool)
      modifies this`inTransaction
      ensures inTransaction <==> old(inTransaction) && fails
    {
      if !fails { inTransaction := false; }
    }

    /** A failure is swallowed here too; and inside an open transaction the lock is not released. */
    method Unlock(fails: bool)
      modifies this`locked
      ensures locked <==> old(locked) && (fails || inTransaction)
    {
      if !fails && !inTransaction { locked := false; }
    }

    /** One file in its own transaction: all of it is committed, or none of it. */
    method Apply(file: MigrationFile, fault: Fault, rollbackFails: bool) returns (ok: bool)
      requires !inTransaction && hasTable && file.version !in table
      modifies this
      ensures inTransaction <==> !fault.NoFault? && !fault.BeginFails? && rollbackFails
      ensures locked == old(locked) && hasTable
      ensures ok <==> fault.NoFault?
      ensures ok ==> log == old(log) + [file] && table == old(table)[file.version := Row(file.name, file.checksum)]
      ensures !ok ==> log == old(log) && table == old(table)
    {
      ok := Begin(fault.BeginFails?);
      if !ok { return; }
      ok := Run(file, fault.SqlFails?);
      if ok { ok := !fault.ResetFails?; }
      if ok { ok := InsertRow(file, fault.InsertFails?); }
      if ok { ok := Commit(fault.CommitFails?); }
      if !ok { Rollback(rollbackFails); }
    }

    /** A call commits, in file order, exactly the untracked files before the one it stopped at, and
        stops only at the first file that is tracked with another checksum or whose transaction
        fails. It leaves the lock free exactly when the unlock works, and so does the rollback if one
        was needed. */
    method Migrate(files: seq<MigrationFile>, faults: seq<Fault>, cleanUp: CleanUp) returns (r: RunResult)
      requires Idle() && DistinctVersions(files) && |faults| == |files|
      modifies this
      ensures hasTable
      ensures var stop := if r.Done? then |files| else r.k;
              && stop <= |files|
              && NoMismatch(files[..stop], old(table))
              && FaultFree(files, faults, old(table), stop)
              && log == old(log) + Pending(files[..stop], old(table))
              && table == Recorded(old(table), Pending(files[..stop], old(table)))
      ensures r.Mismatched? ==>
                && r.k < |files| && files[r.k].version in old(table)
                && old(table)[files[r.k].version].checksum != files[r.k].checksum
      ensures r.Failed? ==> r.k < |files| && files[r.k].version !in old(table) && !faults[r.k].NoFault?
      ensures r.Done? ==>
                && IsVersions(r.applied, Pending(files, old(table))) && IsVersions(r.all, files)
                && AllTracked(files, table)
      ensures inTransaction <==> r.Failed? && !faults[r.k].BeginFails? && cleanUp.rollbackFails
      ensures locked <==> cleanUp.unlockFails || inTransaction
    {
      locked := true;
      hasTable := true;
      var done := table;
      var applied := [];
      assert files[..0] == [];
      for i := 0 to |files|
        invariant locked && !inTransaction && hasTable && done == old(table)
        invariant NoMismatch(files[..i], done)
        invariant FaultFree(files, faults, done, i)
        invariant log == old(log) + Pending(files[..i], done)
        invariant table == Recorded(done, Pending(files[..i], done))
        invariant applied == Versions(Pending(files[..i], done))
      {
        var file := files[i];
        PendingSnoc(files, done, i);
        if file.version in done {
          if done[file.version].checksum != file.checksum {
            Unlock(cleanUp.unlockFails);
            return Mismatched(i);
          }
          NoMismatchSnoc(files, done, i);
          continue;
        }
        NextPending(files, done, i, old(log));
        var ok := Apply(file, faults[i], cleanUp.rollbackFails);
        if !ok {
          Unlock(cleanUp.unlockFails);
          return Failed(i);
        }
        applied := applied + [file.version];
      }
      Unlock(cleanUp.unlockFails);
      assert files[..|files|] == files;
      CompleteRunTracksAll(files, done);
      r := Done(applied, Versions(files));
    }

    /** `status` reports for every file whether its version is recorded, and commits nothing. */
    method Status(files: seq<MigrationFile>) returns (rows: seq<FileStatus>)
      modifies this`hasTable
      ensures |rows| == |files| && hasTable
      ensures forall i | 0 <= i < |files| ::
                rows[i] == FileStatus(files[i].version, files[i].name, files[i].version in table)
    {
      hasTable := true;
      var done := table;
      rows := seq(|files|, i requires 0 <= i < |files| =>
                    FileStatus(files[i].version, files[i].name, files[i].version in done));
    }

    /** A run cut short by failing transactions, but able to clean up, and then a clean one: together
        they commit the same files in the same order, and leave the same table, as a single clean run
        would have. */
    method MigrateAfterFailure(files: seq<MigrationFile>, faults: seq<Fault>)
      returns (first: RunResult, second: RunResult)
      requires Idle() && DistinctVersions(files) && |faults| == |files| && NoMismatch(files, table)
      modifies this
      ensures second.Done?
      ensures log == old(log) + Pending(files, old(table))
      ensures table == Recorded(old(table), Pending(files, old(table)))
      ensures first.Done? ==> second.applied == []
    {
      first := Migrate(files, faults, CleanUp(false, false));
      ghost var stop, middle := if first.Done? then |files| else first.k, table;
      PartialRunLeavesNoMismatch(files, old(table), stop);
      second := Migrate(files, seq(|files|, _ => NoFault), CleanUp(false, false));
      assert forall k | 0 <= k < |files| :: !Mismatch(files[k], middle);
      assert second.Done?;
      assert files[..|files|] == files;
      TwoRunsAreOne(files, old(table), stop, old(log));
    }
  }

  /** What applying the next untracked file adds to a run. */
  lemma NextPending(files: seq<MigrationFile>, t: Table, i: nat, log: seq<MigrationFile>)
    requires DistinctVersions(files) && i < |files| && files[i].version !in t && NoMismatch(files[..i], t)
    ensures var before, after := Pending(files[..i], t), Pending(files[..i + 1], t);
            && files[i].version !in Recorded(t, before)
            && log + before + [files[i]] == log + after
            && Recorded(t, before)[files[i].version := RowOf(files[i])] == Recorded(t, after)
            && Versions(before) + [files[i].version] == Versions(after)
            && NoMismatch(files[..i + 1], t)
  {
    var before := Pending(files[..i], t);
    PendingSnoc(files, t, i);
    UnrecordedUntilItsTurn(files, t, i);
    NoMismatchSnoc(files, t, i);
    VersionsSnoc(before, files[i]);
    RecordedSnoc(t, before, files[i]);
    AppendAssociates(log, before, [files[i]]);
  }

  lemma TwoRunsAreOne(files: seq<MigrationFile>, t: Table, stop: nat, log: seq<MigrationFile>)
    requires DistinctVersions(files) && stop <= |files|
    ensures var first := Pending(files[..stop], t);
            var second := Pending(files, Recorded(t, first));
            && log + first + second == log + Pending(files, t)
            && Recorded(Recorded(t, first), second) == Recorded(t, Pending(files, t))
            && (stop == |files| ==> second == [])
  {
    ResumeReachesTheSame(files, t, stop);
    var first := Pending(files[..stop], t);
    var second := Pending(files, Recorded(t, first));
    AppendAssociates(log, first, second);
    if stop == |files| {
      assert files[..stop] == files;
      RerunAppliesNothing(files, t);
    }
  }
}
