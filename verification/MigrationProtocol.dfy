/** Any number of migration runs against one database: each run is a client with its own list of
    files and its own session; statements of different runs interleave freely, every statement can
    fail, and every session can be cut off at any moment. */
module MigrationProtocol {
  import opened Migrations

  // ------------------------------------------------------------------------- states

  /** The committed database. `log` lists the migration files whose SQL has been committed, in
      commit order, and `author` the session that committed each of them. */
  datatype Database = Database(hasTable: bool, table: Table, log: seq<MigrationFile>, author: seq<nat>)

  /** What an open transaction has done so far, invisible to the others until it commits. */
  datatype Transaction = NoTransaction | Open(ran: seq<MigrationFile>, inserted: seq<MigrationFile>)

  datatype Stage = Began | SqlRan | PathReset | RowInserted

  datatype Outcome =
    | Succeeded
    | ChecksumMismatch(k: nat)
    | SetupFailed
    | FileFailed(k: nat, committed: bool)  // `committed`: the reply to COMMIT was lost, not the COMMIT

  datatype Phase =
    | Start
    | Locked
    | TableReady
    | Scanning(k: nat)
    | InTransaction(k: nat, stage: Stage)
    | RollingBack(k: nat, committed: bool)
    | Unlocking(outcome: Outcome)
    | Ended(outcome: Outcome)

  /** `done` is the client's copy of the tracking table and `base` how many files had been
      committed when it was read; `applied` is the list the client will return. */
  datatype Session = Session(files: seq<MigrationFile>, phase: Phase, alive: bool, holds: bool, txn: Transaction,
                             done: Table, base: nat, applied: seq<string>)

  datatype Lock = Free | HeldBy(holder: nat)

  datatype State = State(db: Database, lock: Lock, sessions: seq<Session>)

  // -------------------------------------------------------------------------- steps

  datatype Action =
    | GetLock | EnsureTable | ReadApplied
    | ScanEnd | ScanSkip | ScanMismatch | Begin
    | RunSql | ResetPath | InsertRow | Commit | CommitReplyLost
    | StatementFails | Rollback | RollbackFails | Unlock | UnlockFails
    | CutOff            // the session dies: its transaction rolls back and its lock is freed
    | StatusRun         // a `status` call creates the tracking table if it is missing

  /** The file the client is looking at is not in its copy of the table. */
  predicate AtPending(x: Session) {
    x.phase.Scanning? && x.phase.k < |x.files| && x.files[x.phase.k].version !in x.done
  }

  predicate Enabled(s: State, i: nat, a: Action) {
    i < |s.sessions| &&
    var x := s.sessions[i];
    match a
    case GetLock => x.alive && x.phase.Start? && s.lock.Free?
    case EnsureTable => x.alive && x.phase.Locked?
    case ReadApplied => x.alive && x.phase.TableReady?
    case ScanEnd => x.phase.Scanning? && x.phase.k >= |x.files|
    case ScanSkip => x.phase.Scanning? && x.phase.k < |x.files| && x.files[x.phase.k].version in x.done
                     && !Mismatch(x.files[x.phase.k], x.done)
    case ScanMismatch => x.phase.Scanning? && x.phase.k < |x.files| && Mismatch(x.files[x.phase.k], x.done)
    case Begin => x.alive && AtPending(x)
    case RunSql => x.alive && x.txn.Open? && x.phase.InTransaction? && x.phase.stage.Began? && x.phase.k < |x.files|
    case ResetPath => x.alive && x.phase.InTransaction? && x.phase.stage.SqlRan?
    case InsertRow => x.alive && x.txn.Open? && x.phase.InTransaction? && x.phase.stage.PathReset?
            && x.phase.k < |x.files|
    case Commit => x.alive && x.txn.Open? && x.phase.InTransaction? && x.phase.stage.RowInserted?
            && x.phase.k < |x.files|
    case CommitReplyLost => x.alive && x.txn.Open? && x.phase.InTransaction? && x.phase.stage.RowInserted?
            && x.phase.k < |x.files|
    case StatementFails => x.phase.Start? || x.phase.Locked? || x.phase.TableReady? || AtPending(x)
            || x.phase.InTransaction?
    case Rollback => x.alive && x.phase.RollingBack?
    case RollbackFails => x.phase.RollingBack?
    case Unlock => x.alive && x.phase.Unlocking?
    case UnlockFails => x.phase.Unlocking?
    case CutOff => x.alive
    case StatusRun => true
  }

  /** The row a version INSERT would collide with is already committed, or there is no table. */
  predicate InsertFails(db: Database, f: MigrationFile) {
    !db.hasTable || f.version in db.table
  }

  function Committed(db: Database, t: Transaction, i: nat): Database
    requires t.Open?
  {
    db.(table := Recorded(db.table, t.inserted), log := db.log + t.ran, author := db.author + seq(|t.ran|, _ => i))
  }

  function DbAfter(s: State, i: nat, a: Action): Database
    requires Enabled(s, i, a)
  {
    match a
    case EnsureTable => s.db.(hasTable := true)
    case StatusRun => s.db.(hasTable := true)
    case Commit => Committed(s.db, s.sessions[i].txn, i)
    case CommitReplyLost => Committed(s.db, s.sessions[i].txn, i)
    case _ => s.db
  }

  function LockAfter(s: State, i: nat, a: Action): Lock
    requires Enabled(s, i, a)
  {
    var x := s.sessions[i];
    match a
    case GetLock => HeldBy(i)
    case Unlock => if x.holds && x.txn.NoTransaction? then Free else s.lock
    case CutOff => if x.holds then Free else s.lock
    case CommitReplyLost => if x.holds then Free else s.lock
    case _ => s.lock
  }

  function Dead(x: Session): Session {
    x.(alive := false, holds := false, txn := NoTransaction)
  }

  function SessionAfter(s: State, i: nat, a: Action): Session
    requires Enabled(s, i, a)
  {
    var x := s.sessions[i];
    match a
    case GetLock => x.(phase := Locked, holds := true)
    case EnsureTable => x.(phase := TableReady)
    case ReadApplied => x.(phase := Scanning(0), done := s.db.table, base := |s.db.log|, applied := [])
    case ScanEnd => x.(phase := Unlocking(Succeeded))
    case ScanSkip => x.(phase := Scanning(x.phase.k + 1))
    case ScanMismatch => x.(phase := Unlocking(ChecksumMismatch(x.phase.k)))
    case Begin => x.(phase := InTransaction(x.phase.k, Began), txn := Open([], []))
    case RunSql => x.(phase := InTransaction(x.phase.k, SqlRan), txn := x.txn.(ran := x.txn.ran + [x.files[x.phase.k]]))
    case ResetPath => x.(phase := InTransaction(x.phase.k, PathReset))
    case InsertRow =>
      if InsertFails(s.db, x.files[x.phase.k]) then x.(phase := RollingBack(x.phase.k, false))
      else x.(phase := InTransaction(x.phase.k, RowInserted),
              txn := x.txn.(inserted := x.txn.inserted + [x.files[x.phase.k]]))
    case Commit => x.(phase := Scanning(x.phase.k + 1), txn := NoTransaction,
                      applied := x.applied + [x.files[x.phase.k].version])
    case CommitReplyLost => Dead(x).(phase := RollingBack(x.phase.k, true))
    case StatementFails =>
      if AtPending(x) then x.(phase := Unlocking(FileFailed(x.phase.k, false)))
      else if x.phase.InTransaction? then x.(phase := RollingBack(x.phase.k, false))
      else x.(phase := Unlocking(SetupFailed))
    case Rollback => x.(phase := Unlocking(FileFailed(x.phase.k, x.phase.committed)), txn := NoTransaction)
    case RollbackFails => x.(phase := Unlocking(FileFailed(x.phase.k, x.phase.committed)))
    case Unlock => x.(phase := Ended(x.phase.outcome), holds := x.holds && x.txn.Open?)
    case UnlockFails => x.(phase := Ended(x.phase.outcome))
    case CutOff => Dead(x)
    case StatusRun => x
  }

  function Next(s: State, i: nat, a: Action): State
    requires Enabled(s, i, a)
  {
    State(DbAfter(s, i, a), LockAfter(s, i, a), s.sessions[i := SessionAfter(s, i, a)])
  }

  ghost predicate Steps(s: State, t: State) {
    exists i, a :: Enabled(s, i, a) && t == Next(s, i, a)
  }

  /** `trace` is a run: it starts with fresh sessions over a consistent database. */
  ghost predicate IsRun(trace: seq<State>) {
    && trace != [] && Initial(trace[0])
    && (forall n :: 0 <= n < |trace| - 1 ==> StepAt(trace, n))
  }

  ghost predicate StepAt(trace: seq<State>, n: int)
    requires 0 <= n < |trace| - 1
  {
    Steps(trace[n], trace[n + 1])
  }

  ghost predicate Initial(s: State) {
    && s.lock.Free? && DatabaseOk(s.db)
    && (forall i | 0 <= i < |s.sessions| ::
          var x := s.sessions[i];
          DistinctVersions(x.files) && x.phase.Start? && x.alive && !x.holds && x.txn.NoTransaction?)
  }

  // ---------------------------------------------------------------------- invariant

  /** No version was committed twice, and the table records exactly the committed files with the
      names and checksums of the files that were run. */
  ghost predicate DatabaseOk(db: Database) {
    && DistinctVersions(db.log)
    && db.table == Recorded(map[], db.log)
    && |db.author| == |db.log|
  }

  /** Since it read the table, session `i` committed exactly `p`: that block, right after what it
      read, is by `i`, and nothing later is. While it holds the lock nothing later exists at all. */
  ghost predicate Ran(db: Database, i: nat, x: Session, p: seq<MigrationFile>) {
    && x.base + |p| <= |db.log| && |db.author| == |db.log|
    && db.log[x.base..x.base + |p|] == p
    && (forall n | x.base <= n < |db.log| :: db.author[n] == i <==> n < x.base + |p|)
    && x.done == Recorded(map[], db.log[..x.base])
    && (x.holds ==> |db.log| == x.base + |p|)
  }

  /** The first `k` files are up to date: none is mismatched, and the missing ones were committed. */
  ghost predicate UpToDate(db: Database, i: nat, x: Session, k: nat) {
    k <= |x.files| && NoMismatch(x.files[..k], x.done) && Ran(db, i, x, Pending(x.files[..k], x.done))
  }

  ghost predicate Listed(x: Session, k: nat) {
    k <= |x.files| && x.applied == Versions(Pending(x.files[..k], x.done))
  }

  ghost predicate OutcomeOk(db: Database, i: nat, x: Session, o: Outcome) {
    match o
    case Succeeded => UpToDate(db, i, x, |x.files|) && Listed(x, |x.files|)
    case ChecksumMismatch(k) => k < |x.files| && Mismatch(x.files[k], x.done) && UpToDate(db, i, x, k)
    case SetupFailed => true
    case FileFailed(k, committed) => FailedAt(db, i, x, k, committed)
  }

  ghost predicate FailedAt(db: Database, i: nat, x: Session, k: nat, committed: bool) {
    k < |x.files| && x.files[k].version !in x.done && UpToDate(db, i, x, if committed then k + 1 else k)
  }

  ghost predicate TransactionOk(x: Session) {
    match x.phase
    case InTransaction(k, stage) =>
      k < |x.files| && (x.alive ==>
        match stage
        case Began => x.txn == Open([], [])
        case RowInserted => x.txn == Open([x.files[k]], [x.files[k]])
        case _ => x.txn == Open([x.files[k]], []))
    case RollingBack(_, _) => true
    case Unlocking(_) => true
    case Ended(_) => true
    case _ => x.txn.NoTransaction?
  }

  predicate Critical(p: Phase) {
    p.Locked? || p.TableReady? || p.Scanning? || p.InTransaction? || p.RollingBack?
  }

  ghost predicate SessionOk(db: Database, i: nat, x: Session) {
    && DistinctVersions(x.files)
    && (!x.alive ==> !x.holds && x.txn.NoTransaction?)
    && (x.alive && Critical(x.phase) ==> x.holds)
    && (x.alive && x.phase.Start? ==> !x.holds)
    && TransactionOk(x)
    && match x.phase
       case Scanning(k) => UpToDate(db, i, x, k) && Listed(x, k) && db.hasTable
       case InTransaction(k, _) => FailedAt(db, i, x, k, false) && Listed(x, k) && db.hasTable
       case RollingBack(k, committed) => FailedAt(db, i, x, k, committed)
       case Unlocking(o) => OutcomeOk(db, i, x, o)
       case Ended(o) => OutcomeOk(db, i, x, o)
       case TableReady => db.hasTable
       case _ => true
  }

  ghost predicate Inv(s: State) {
    && DatabaseOk(s.db)
    && (forall i | 0 <= i < |s.sessions| :: SessionOk(s.db, i, s.sessions[i]))
    && (forall i | 0 <= i < |s.sessions| :: s.sessions[i].holds <==> s.lock == HeldBy(i))
    && (s.lock.HeldBy? ==> s.lock.holder < |s.sessions|)
  }

  lemma InitialInv(s: State)
    requires Initial(s)
    ensures Inv(s)
  {}

  /** The committed history of `db` continues in `later`. */
  ghost predicate Extends(db: Database, later: Database) {
    && db.log <= later.log && db.author <= later.author && (db.hasTable ==> later.hasTable)
    && |db.author| == |db.log| && |later.author| == |later.log|
  }

  /** What was committed between `db` and `later` is not by session `i`. */
  ghost predicate ByOthers(db: Database, later: Database, i: nat)
    requires |later.author| == |later.log|
  {
    forall n | |db.log| <= n < |later.log| :: later.author[n] != i
  }

  lemma RanStays(db: Database, later: Database, i: nat, x: Session, p: seq<MigrationFile>)
    requires Ran(db, i, x, p) && Extends(db, later) && ByOthers(db, later, i) && (x.holds ==> later.log == db.log)
    ensures Ran(later, i, x, p)
  {
    assert later.log[x.base..x.base + |p|] == db.log[x.base..x.base + |p|];
    assert later.log[..x.base] == db.log[..x.base];
  }

  lemma UpToDateStays(db: Database, later: Database, i: nat, x: Session, k: nat)
    requires UpToDate(db, i, x, k) && Extends(db, later) && ByOthers(db, later, i) && (x.holds ==> later.log == db.log)
    ensures UpToDate(later, i, x, k)
  {
    RanStays(db, later, i, x, Pending(x.files[..k], x.done));
  }

  /** A session that takes no step keeps everything it knows. */
  lemma SessionStays(db: Database, later: Database, i: nat, x: Session)
    requires SessionOk(db, i, x) && Extends(db, later) && ByOthers(db, later, i) && (x.holds ==> later.log == db.log)
    ensures SessionOk(later, i, x)
  {
    match x.phase
    case Scanning(k) => UpToDateStays(db, later, i, x, k);
    case InTransaction(k, _) => UpToDateStays(db, later, i, x, k);
    case RollingBack(k, committed) => UpToDateStays(db, later, i, x, if committed then k + 1 else k);
    case Unlocking(o) => OutcomeStays(db, later, i, x, o);
    case Ended(o) => OutcomeStays(db, later, i, x, o);
    case _ =>
  }

  lemma OutcomeStays(db: Database, later: Database, i: nat, x: Session, o: Outcome)
    requires OutcomeOk(db, i, x, o) && Extends(db, later) && ByOthers(db, later, i) && (x.holds ==> later.log == db.log)
    ensures OutcomeOk(later, i, x, o)
  {
    match o
    case Succeeded => UpToDateStays(db, later, i, x, |x.files|);
    case ChecksumMismatch(k) => UpToDateStays(db, later, i, x, k);
    case SetupFailed =>
    case FileFailed(k, committed) => UpToDateStays(db, later, i, x, if committed then k + 1 else k);
  }

  // -------------------------------------------------------------- one step, case by case

  /** While a session holds the lock, the file it is about to apply is not in the table. */
  lemma NotRecordedYet(db: Database, i: nat, x: Session, k: nat)
    requires DatabaseOk(db) && DistinctVersions(x.files) && x.holds && FailedAt(db, i, x, k, false)
    ensures x.files[k].version !in db.table
    ensures forall n | 0 <= n < |db.log| :: db.log[n].version != x.files[k].version
  {
    var p := Pending(x.files[..k], x.done);
    assert db.log == db.log[..x.base] + p;
    RecordedAppend(map[], db.log[..x.base], p);
    UnrecordedUntilItsTurn(x.files, x.done, k);
    RecordedKeys(map[], db.log, x.files[k].version);
  }

  lemma CommitKeepsDatabase(db: Database, i: nat, f: MigrationFile)
    requires DatabaseOk(db) && forall n | 0 <= n < |db.log| :: db.log[n].version != f.version
    ensures DatabaseOk(Committed(db, Open([f], [f]), i)) && Extends(db, Committed(db, Open([f], [f]), i))
  {
    var later := Committed(db, Open([f], [f]), i);
    assert later.log == db.log + [f];
    RecordedAppend(map[], db.log, [f]);
  }

  /** After the commit of file `k`, the first `k + 1` files are up to date. */
  lemma CommitAdvances(db: Database, i: nat, x: Session, k: nat, y: Session)
    requires DatabaseOk(db) && DistinctVersions(x.files) && x.holds && FailedAt(db, i, x, k, false)
    requires y.files == x.files && y.done == x.done && y.base == x.base
    ensures var later := Committed(db, Open([x.files[k]], [x.files[k]]), i);
            DatabaseOk(later) && Extends(db, later) && UpToDate(later, i, y, k + 1)
    ensures Pending(x.files[..k + 1], x.done) == Pending(x.files[..k], x.done) + [x.files[k]]
  {
    NotRecordedYet(db, i, x, k);
    CommitKeepsDatabase(db, i, x.files[k]);
    PendingSnoc(x.files, x.done, k);
    NoMismatchSnoc(x.files, x.done, k);
    var later := Committed(db, Open([x.files[k]], [x.files[k]]), i);
    var p := Pending(x.files[..k], x.done);
    assert later.log[x.base..x.base + |p| + 1] == p + [x.files[k]];
    assert later.log[..x.base] == db.log[..x.base];
  }

  /** What a session knows about its own run depends only on these fields. */
  lemma Carries(db: Database, later: Database, i: nat, x: Session, y: Session, k: nat)
    requires UpToDate(db, i, x, k) && Extends(db, later) && ByOthers(db, later, i) && (x.holds ==> later.log == db.log)
    requires y.files == x.files && y.done == x.done && y.base == x.base && (y.holds ==> x.holds)
    ensures UpToDate(later, i, y, k)
  {
    RanStays(db, later, i, x, Pending(x.files[..k], x.done));
  }

  lemma CarriesOutcome(db: Database, i: nat, x: Session, y: Session, o: Outcome)
    requires OutcomeOk(db, i, x, o) && |db.author| == |db.log|
    requires y.files == x.files && y.done == x.done && y.base == x.base && y.applied == x.applied
            && (y.holds ==> x.holds)
    ensures OutcomeOk(db, i, y, o)
  {
    match o
    case Succeeded => Carries(db, db, i, x, y, |x.files|);
    case ChecksumMismatch(k) => Carries(db, db, i, x, y, k);
    case SetupFailed =>
    case FileFailed(k, committed) => Carries(db, db, i, x, y, if committed then k + 1 else k);
  }

  /** The session's own step preserves what must hold of it, and of the database. */
  ghost predicate StepKeeps(s: State, i: nat, a: Action)
    requires Enabled(s, i, a)
  {
    && DatabaseOk(DbAfter(s, i, a)) && Extends(s.db, DbAfter(s, i, a))
    && SessionOk(DbAfter(s, i, a), i, SessionAfter(s, i, a))
    && (DbAfter(s, i, a).log != s.db.log ==> s.sessions[i].holds)
  }

  lemma SetupStepKeeps(s: State, i: nat, a: Action)
    requires Inv(s) && Enabled(s, i, a) && (a.GetLock? || a.EnsureTable? || a.ReadApplied?)
    ensures StepKeeps(s, i, a)
  {
    if a.ReadApplied? { ReadStarts(s, i); }
  }

  lemma ScanStepKeeps(s: State, i: nat, a: Action)
    requires Inv(s) && Enabled(s, i, a) && (a.ScanEnd? || a.ScanSkip? || a.ScanMismatch? || a.Begin?)
    ensures StepKeeps(s, i, a)
  {
    var x, y := s.sessions[i], SessionAfter(s, i, a);
    if a.ScanSkip? {
      SkipAdvances(s.db, i, x);
    } else {
      Carries(s.db, s.db, i, x, y, x.phase.k);
      assert a.ScanEnd? ==> x.files[..x.phase.k] == x.files;
    }
  }

  lemma TransactionStepKeeps(s: State, i: nat, a: Action)
    requires Inv(s) && Enabled(s, i, a) && (a.RunSql? || a.ResetPath? || a.InsertRow?)
    ensures StepKeeps(s, i, a)
  {
    var x, y := s.sessions[i], SessionAfter(s, i, a);
    Carries(s.db, s.db, i, x, y, x.phase.k);
    NotRecordedYet(s.db, i, x, x.phase.k);
  }

  lemma CommitStepKeeps(s: State, i: nat)
    requires Inv(s) && Enabled(s, i, Commit)
    ensures StepKeeps(s, i, Commit)
  {
    var x, y := s.sessions[i], SessionAfter(s, i, Commit);
    var k := x.phase.k;
    var later := Committed(s.db, Open([x.files[k]], [x.files[k]]), i);
    assert DbAfter(s, i, Commit) == later;
    CommitAdvances(s.db, i, x, k, y);
    VersionsSnoc(Pending(x.files[..k], x.done), x.files[k]);
    ScanningOk(later, i, y);
  }

  lemma ScanningOk(db: Database, i: nat, y: Session)
    requires DistinctVersions(y.files) && y.alive && y.holds && y.txn.NoTransaction? && y.phase.Scanning? && db.hasTable
    requires UpToDate(db, i, y, y.phase.k) && Listed(y, y.phase.k)
    ensures SessionOk(db, i, y)
  {}

  lemma LostCommitStepKeeps(s: State, i: nat)
    requires Inv(s) && Enabled(s, i, CommitReplyLost)
    ensures StepKeeps(s, i, CommitReplyLost)
  {
    var x, y := s.sessions[i], SessionAfter(s, i, CommitReplyLost);
    var later := Committed(s.db, Open([x.files[x.phase.k]], [x.files[x.phase.k]]), i);
    assert DbAfter(s, i, CommitReplyLost) == later;
    CommitAdvances(s.db, i, x, x.phase.k, y);
    LostCommitOk(later, i, y);
  }

  lemma LostCommitOk(db: Database, i: nat, y: Session)
    requires DistinctVersions(y.files) && !y.alive && !y.holds && y.txn.NoTransaction?
    requires y.phase.RollingBack? && FailedAt(db, i, y, y.phase.k, y.phase.committed)
    ensures SessionOk(db, i, y)
  {}

  lemma FailureStepKeeps(s: State, i: nat)
    requires Inv(s) && Enabled(s, i, StatementFails)
    ensures StepKeeps(s, i, StatementFails)
  {
    var x, y := s.sessions[i], SessionAfter(s, i, StatementFails);
    if x.phase.InTransaction? || AtPending(x) {
      Carries(s.db, s.db, i, x, y, x.phase.k);
      assert FailedAt(s.db, i, y, x.phase.k, false);
    }
  }

  lemma RollbackStepKeeps(s: State, i: nat, a: Action)
    requires Inv(s) && Enabled(s, i, a) && (a.Rollback? || a.RollbackFails?)
    ensures StepKeeps(s, i, a)
  {
    var x, y := s.sessions[i], SessionAfter(s, i, a);
    Carries(s.db, s.db, i, x, y, if x.phase.committed then x.phase.k + 1 else x.phase.k);
    assert FailedAt(s.db, i, y, x.phase.k, x.phase.committed);
  }

  lemma EndStepKeeps(s: State, i: nat, a: Action)
    requires Inv(s) && Enabled(s, i, a) && (a.Unlock? || a.UnlockFails?)
    ensures StepKeeps(s, i, a)
  {
    var x, y := s.sessions[i], SessionAfter(s, i, a);
    CarriesOutcome(s.db, i, x, y, x.phase.outcome);
  }

  lemma CutOffKeeps(s: State, i: nat)
    requires Inv(s) && Enabled(s, i, CutOff)
    ensures StepKeeps(s, i, CutOff)
  {
    assert SessionAfter(s, i, CutOff) == Dead(s.sessions[i]);
    DeadSessionOk(s.db, i, s.sessions[i]);
  }

  lemma DeadSessionOk(db: Database, i: nat, x: Session)
    requires SessionOk(db, i, x) && |db.author| == |db.log|
    ensures SessionOk(db, i, Dead(x))
  {
    match x.phase
    case Scanning(k) => Carries(db, db, i, x, Dead(x), k);
    case InTransaction(k, _) => Carries(db, db, i, x, Dead(x), k);
    case RollingBack(k, committed) => Carries(db, db, i, x, Dead(x), if committed then k + 1 else k);
    case Unlocking(o) => CarriesOutcome(db, i, x, Dead(x), o);
    case Ended(o) => CarriesOutcome(db, i, x, Dead(x), o);
    case _ =>
  }

  lemma OwnStepKeeps(s: State, i: nat, a: Action)
    requires Inv(s) && Enabled(s, i, a)
    ensures StepKeeps(s, i, a)
  {
    match a
    case GetLock => SetupStepKeeps(s, i, a);
    case EnsureTable => SetupStepKeeps(s, i, a);
    case ReadApplied => SetupStepKeeps(s, i, a);
    case ScanEnd => ScanStepKeeps(s, i, a);
    case ScanSkip => ScanStepKeeps(s, i, a);
    case ScanMismatch => ScanStepKeeps(s, i, a);
    case Begin => ScanStepKeeps(s, i, a);
    case RunSql => TransactionStepKeeps(s, i, a);
    case ResetPath => TransactionStepKeeps(s, i, a);
    case InsertRow => TransactionStepKeeps(s, i, a);
    case Commit => CommitStepKeeps(s, i);
    case CommitReplyLost => LostCommitStepKeeps(s, i);
    case StatementFails => FailureStepKeeps(s, i);
    case Rollback => RollbackStepKeeps(s, i, a);
    case RollbackFails => RollbackStepKeeps(s, i, a);
    case Unlock => EndStepKeeps(s, i, a);
    case UnlockFails => EndStepKeeps(s, i, a);
    case CutOff => CutOffKeeps(s, i);
    case StatusRun => SessionStays(s.db, DbAfter(s, i, a), i, s.sessions[i]);
  }

  lemma LockStep(s: State, i: nat, a: Action)
    requires Inv(s) && Enabled(s, i, a)
    ensures var t := Next(s, i, a);
            && (forall j | 0 <= j < |t.sessions| :: t.sessions[j].holds <==> t.lock == HeldBy(j))
            && (t.lock.HeldBy? ==> t.lock.holder < |t.sessions|)
  {
    var t := Next(s, i, a);
    assert t.sessions[i].holds <==> t.lock == HeldBy(i);
    forall j | 0 <= j < |t.sessions| && j != i ensures t.sessions[j].holds <==> t.lock == HeldBy(j) {
      assert t.sessions[j] == s.sessions[j];
    }
  }

  /** Every step of every session, failing or not, keeps the invariant. */
  lemma StepKeepsInv(s: State, i: nat, a: Action)
    requires Inv(s) && Enabled(s, i, a)
    ensures Inv(Next(s, i, a)) && Extends(s.db, Next(s, i, a).db)
  {
    var t := Next(s, i, a);
    OwnStepKeeps(s, i, a);
    LockStep(s, i, a);
    forall j | 0 <= j < |t.sessions| ensures SessionOk(t.db, j, t.sessions[j]) {
      if j != i {
        assert t.sessions[j] == s.sessions[j];
        SessionStays(s.db, t.db, j, s.sessions[j]);
      }
    }
  }

  lemma ReadStarts(s: State, i: nat)
    requires Inv(s) && Enabled(s, i, ReadApplied)
    ensures SessionOk(s.db, i, SessionAfter(s, i, ReadApplied))
  {
    var y := SessionAfter(s, i, ReadApplied);
    assert y.files[..0] == [];
    assert s.db.log[..|s.db.log|] == s.db.log;
    assert Ran(s.db, i, y, []);
  }

  lemma SkipAdvances(db: Database, i: nat, x: Session)
    requires SessionOk(db, i, x) && |db.author| == |db.log| && x.phase.Scanning? && x.phase.k < |x.files|
    requires x.files[x.phase.k].version in x.done && !Mismatch(x.files[x.phase.k], x.done)
    ensures SessionOk(db, i, x.(phase := Scanning(x.phase.k + 1)))
  {
    var y := x.(phase := Scanning(x.phase.k + 1));
    SkipUpToDate(db, i, x, x.phase.k);
    Carries(db, db, i, x, y, x.phase.k + 1);
  }

  lemma SkipUpToDate(db: Database, i: nat, x: Session, k: nat)
    requires k < |x.files| && UpToDate(db, i, x, k) && Listed(x, k)
    requires x.files[k].version in x.done && !Mismatch(x.files[k], x.done)
    ensures UpToDate(db, i, x, k + 1) && Listed(x, k + 1)
  {
    PendingSnoc(x.files, x.done, k);
    NoMismatchSnoc(x.files, x.done, k);
  }

  // ------------------------------------------------------------------ whole runs

  lemma {:induction false} RunInv(trace: seq<State>, n: nat)
    requires IsRun(trace) && n < |trace|
    ensures Inv(trace[n])
  {
    if n == 0 {
      InitialInv(trace[0]);
    } else {
      RunInv(trace, n - 1);
      RunStep(trace, n - 1);
    }
  }

  lemma RunStep(trace: seq<State>, n: nat)
    requires IsRun(trace) && n + 1 < |trace| && Inv(trace[n])
    ensures Inv(trace[n + 1]) && Extends(trace[n].db, trace[n + 1].db)
  {
    var s, t := trace[n], trace[n + 1];
    assert StepAt(trace, n);
    var i, a :| Enabled(s, i, a) && t == Next(s, i, a);
    StepKeepsInv(s, i, a);
  }

  lemma {:induction false} RunExtends(trace: seq<State>, m: nat, n: nat)
    requires IsRun(trace) && m <= n < |trace|
    ensures Extends(trace[m].db, trace[n].db)
    decreases n
  {
    RunInv(trace, m);
    if m < n {
      RunExtends(trace, m, n - 1);
      RunInv(trace, n - 1);
      RunStep(trace, n - 1);
      ExtendsTransitive(trace[m].db, trace[n - 1].db, trace[n].db);
    }
  }

  lemma ExtendsTransitive(a: Database, b: Database, c: Database)
    requires Extends(a, b) && Extends(b, c)
    ensures Extends(a, c)
  {}

  /** No row of the tracking table is ever changed or removed, and committed files stay committed. */
  lemma HistoryOnlyGrows(trace: seq<State>, m: nat, n: nat)
    requires IsRun(trace) && m <= n < |trace|
    ensures trace[m].db.log <= trace[n].db.log
    ensures forall v | v in trace[m].db.table :: v in trace[n].db.table && trace[n].db.table[v] == trace[m].db.table[v]
  {
    RunInv(trace, m);
    RunInv(trace, n);
    RunExtends(trace, m, n);
    var db, later := trace[m].db, trace[n].db;
    forall v | v in db.table ensures v in later.table && later.table[v] == db.table[v] {
      RowStays(db, later, v);
    }
  }

  lemma RowStays(db: Database, later: Database, v: string)
    requires DatabaseOk(db) && DatabaseOk(later) && Extends(db, later) && v in db.table
    ensures v in later.table && later.table[v] == db.table[v]
  {
    RecordedKeys(map[], db.log, v);
    var n :| 0 <= n < |db.log| && db.log[n].version == v;
    TableRow(db, n);
    TableRow(later, n);
  }

  /** The row of a committed file carries that file's own name and checksum. */
  lemma TableRow(db: Database, n: int)
    requires DatabaseOk(db) && 0 <= n < |db.log|
    ensures db.log[n].version in db.table && db.table[db.log[n].version] == RowOf(db.log[n])
  {
    RecordedRow(map[], db.log, db.log[n]);
  }

  /** At every moment of every run: no version has been committed twice; the tracking table lists
      exactly the committed files, each with the checksum of the file that was run; at most one
      live session is between taking the lock and the end of its work; and a session about to
      insert a version does not find it there. */
  lemma RunIsSafe(trace: seq<State>, n: nat)
    requires IsRun(trace) && n < |trace|
    ensures var db := trace[n].db;
            && DistinctVersions(db.log)
            && (forall v :: v in db.table <==> exists m :: 0 <= m < |db.log| && db.log[m].version == v)
            && (forall m | 0 <= m < |db.log| ::
                  db.table[db.log[m].version] == Row(db.log[m].name, db.log[m].checksum))
    ensures forall i, j | 0 <= i < |trace[n].sessions| && 0 <= j < |trace[n].sessions| ::
              var x, y := trace[n].sessions[i], trace[n].sessions[j];
              x.alive && Critical(x.phase) && y.alive && Critical(y.phase) ==> i == j
    ensures forall i | 0 <= i < |trace[n].sessions| && Enabled(trace[n], i, InsertRow) ::
              !InsertFails(trace[n].db, trace[n].sessions[i].files[trace[n].sessions[i].phase.k])
  {
    var s := trace[n];
    RunInv(trace, n);
    forall v ensures v in s.db.table <==> exists m :: 0 <= m < |s.db.log| && s.db.log[m].version == v {
      RecordedKeys(map[], s.db.log, v);
    }
    forall m | 0 <= m < |s.db.log|
      ensures s.db.table[s.db.log[m].version] == Row(s.db.log[m].name, s.db.log[m].checksum)
    {
      TableRow(s.db, m);
    }
    forall i | 0 <= i < |s.sessions| && Enabled(s, i, InsertRow)
      ensures !InsertFails(s.db, s.sessions[i].files[s.sessions[i].phase.k])
    {
      NotRecordedYet(s.db, i, s.sessions[i], s.sessions[i].phase.k);
    }
  }

  /** A run that succeeded committed, in one block and in file order, exactly the files that were
      missing from the table it read, and returns their versions; since then every one of its
      files is recorded with its own checksum. */
  lemma SuccessMeans(trace: seq<State>, n: nat, i: nat)
    requires IsRun(trace) && n < |trace| && i < |trace[n].sessions|
    requires trace[n].sessions[i].phase == Ended(Succeeded)
    ensures var x, db := trace[n].sessions[i], trace[n].db;
            var p := Pending(x.files, x.done);
            && Ran(db, i, x, p) && CommittedOnly(db, i, x.base, p) && x.applied == Versions(p)
            && (forall k | 0 <= k < |x.files| ::
                  x.files[k].version in db.table && db.table[x.files[k].version].checksum == x.files[k].checksum)
  {
    RunInv(trace, n);
    var x, db := trace[n].sessions[i], trace[n].db;
    assert x.files[..|x.files|] == x.files;
    RanOnly(db, i, x, Pending(x.files, x.done));
    forall k | 0 <= k < |x.files|
      ensures x.files[k].version in db.table && db.table[x.files[k].version].checksum == x.files[k].checksum
    {
      if x.files[k].version in x.done {
        assert !Mismatch(x.files[k], x.done);
        TrackedStays(db, x.base, x.done, x.files[k].version);
      } else {
        AppliedIsTracked(db, i, x, x.files[k]);
      }
    }
  }

  lemma TrackedStays(db: Database, base: nat, done: Table, v: string)
    requires DatabaseOk(db) && base <= |db.log| && done == Recorded(map[], db.log[..base]) && v in done
    ensures v in db.table && db.table[v] == done[v]
  {
    var early := Database(db.hasTable, done, db.log[..base], db.author[..base]);
    forall a, b | 0 <= a < b < |early.log| ensures early.log[a].version != early.log[b].version {
      assert db.log[a].version != db.log[b].version;
    }
    RowStays(early, db, v);
  }

  lemma AppliedIsTracked(db: Database, i: nat, x: Session, f: MigrationFile)
    requires DatabaseOk(db) && Ran(db, i, x, Pending(x.files, x.done)) && f in x.files && f.version !in x.done
    ensures f.version in db.table && db.table[f.version] == RowOf(f)
  {
    var p := Pending(x.files, x.done);
    PendingMembers(x.files, x.done, f);
    var m :| 0 <= m < |p| && p[m] == f;
    assert db.log[x.base..x.base + |p|][m] == db.log[x.base + m];
    TableRow(db, x.base + m);
  }

  /** What session `i` committed since it read the table lies in `p`. */
  ghost predicate CommittedOnly(db: Database, i: nat, base: nat, p: seq<MigrationFile>)
    requires |db.author| == |db.log|
  {
    forall n | base <= n < |db.log| && db.author[n] == i :: db.log[n] in p
  }

  lemma RanOnly(db: Database, i: nat, x: Session, p: seq<MigrationFile>)
    requires Ran(db, i, x, p)
    ensures CommittedOnly(db, i, x.base, p)
  {
    forall n | x.base <= n < |db.log| && db.author[n] == i ensures db.log[n] in p {
      assert db.log[x.base..x.base + |p|][n - x.base] == db.log[n];
    }
  }

  /** A run that stopped at file `k` committed exactly the pending files before it, except that a
      COMMIT whose reply was lost also committed file `k` itself. */
  lemma FailureMeans(trace: seq<State>, n: nat, i: nat)
    requires IsRun(trace) && n < |trace| && i < |trace[n].sessions|
    requires trace[n].sessions[i].phase.Ended? && trace[n].sessions[i].phase.outcome.FileFailed?
    ensures var x, o, db := trace[n].sessions[i], trace[n].sessions[i].phase.outcome, trace[n].db;
            && o.k < |x.files| && x.files[o.k].version !in x.done
            && var p := Pending(x.files[..o.k], x.done) + if o.committed then [x.files[o.k]] else [];
               Ran(db, i, x, p) && CommittedOnly(db, i, x.base, p)
  {
    RunInv(trace, n);
    var x, o, db := trace[n].sessions[i], trace[n].sessions[i].phase.outcome, trace[n].db;
    PendingSnoc(x.files, x.done, o.k);
    assert Pending(x.files[..o.k], x.done) + [] == Pending(x.files[..o.k], x.done);
    RanOnly(db, i, x, Pending(x.files[..o.k], x.done) + if o.committed then [x.files[o.k]] else []);
  }

  /** A checksum mismatch at file `k` stops the run: no file from `k` on was committed by it. */
  lemma MismatchMeans(trace: seq<State>, n: nat, i: nat)
    requires IsRun(trace) && n < |trace| && i < |trace[n].sessions|
    requires trace[n].sessions[i].phase.Ended? && trace[n].sessions[i].phase.outcome.ChecksumMismatch?
    ensures var x, k, db := trace[n].sessions[i], trace[n].sessions[i].phase.outcome.k, trace[n].db;
            && k < |x.files| && x.files[k].version in x.done
            && x.done[x.files[k].version].checksum != x.files[k].checksum && Unchanged(x.files[..k], x.done)
            && Ran(db, i, x, Pending(x.files[..k], x.done))
            && (forall m, j | x.base <= m < |db.log| && db.author[m] == i && k <= j < |x.files| ::
                  db.log[m].version != x.files[j].version)
            && (forall m | 0 <= m < |db.log| :: db.log[m].version == x.files[k].version ==> m < x.base)
  {
    RunInv(trace, n);
    var x, k, db := trace[n].sessions[i], trace[n].sessions[i].phase.outcome.k, trace[n].db;
    RanOnly(db, i, x, Pending(x.files[..k], x.done));
    forall m, j | x.base <= m < |db.log| && db.author[m] == i && k <= j < |x.files|
      ensures db.log[m].version != x.files[j].version
    {
      PendingMembers(x.files[..k], x.done, db.log[m]);
      var c :| 0 <= c < k && x.files[..k][c] == db.log[m];
      assert x.files[c].version != x.files[j].version;
    }
    TrackedBefore(db, x.base, x.done, x.files[k].version);
    forall m | 0 <= m < k && x.files[..k][m].version in x.done
      ensures x.done[x.files[..k][m].version].checksum == x.files[..k][m].checksum
    {
      assert !Mismatch(x.files[..k][m], x.done);
    }
  }

  /** A version that was tracked when the table was read was committed before that, and only then. */
  lemma TrackedBefore(db: Database, base: nat, done: Table, v: string)
    requires DatabaseOk(db) && base <= |db.log| && done == Recorded(map[], db.log[..base]) && v in done
    ensures forall m | 0 <= m < |db.log| :: db.log[m].version == v ==> m < base
  {
    RecordedKeys(map[], db.log[..base], v);
    var c :| 0 <= c < base && db.log[..base][c].version == v;
    assert db.log[c].version == v;
  }

  /** Two successful runs never both report the same version as applied by them. */
  lemma NoDoubleApply(trace: seq<State>, n: nat, i: nat, j: nat, v: string)
    requires IsRun(trace) && n < |trace| && i < |trace[n].sessions| && j < |trace[n].sessions| && i != j
    requires trace[n].sessions[i].phase == Ended(Succeeded) && trace[n].sessions[j].phase == Ended(Succeeded)
    ensures !(v in trace[n].sessions[i].applied && v in trace[n].sessions[j].applied)
  {
    var x, y, db := trace[n].sessions[i], trace[n].sessions[j], trace[n].db;
    RunInv(trace, n);
    if v in x.applied && v in y.applied {
      var a := AppliedAt(db, i, x, v);
      var b := AppliedAt(db, j, y, v);
    }
  }

  lemma AppliedAt(db: Database, i: nat, x: Session, v: string) returns (m: nat)
    requires DatabaseOk(db) && OutcomeOk(db, i, x, Succeeded) && v in x.applied
    ensures m < |db.log| && db.log[m].version == v && db.author[m] == i
  {
    var p := Pending(x.files[..|x.files|], x.done);
    var k :| 0 <= k < |x.applied| && x.applied[k] == v;
    m := x.base + k;
    assert db.log[x.base..x.base + |p|][k] == db.log[m];
  }

  /** One session with one file over an empty database, its transaction just begun. */
  function JustBegun(f: MigrationFile): State {
    State(Database(true, map[], [], []), HeldBy(0),
          [Session([f], InTransaction(0, Began), true, true, Open([], []), map[], 0, [])])
  }

  lemma BeginsAlone(f: MigrationFile) returns (trace: seq<State>)
    ensures IsRun(trace) && trace[|trace| - 1] == JustBegun(f)
  {
    trace := [State(Database(false, map[], [], []), Free,
                    [Session([f], Start, true, false, NoTransaction, map[], 0, [])])];
    trace := Extended(trace, 0, GetLock);
    trace := Extended(trace, 0, EnsureTable);
    trace := Extended(trace, 0, ReadApplied);
    trace := Extended(trace, 0, Begin);
  }

  /** A committed file can be reported as failed: one session, one file, and a connection that
      breaks between the COMMIT and its reply. */
  lemma LostReply(f: MigrationFile) returns (trace: seq<State>)
    ensures IsRun(trace)
    ensures var last := trace[|trace| - 1];
            && |last.sessions| == 1 && last.sessions[0].phase == Ended(FileFailed(0, true))
            && last.sessions[0].files == [f] && last.sessions[0].applied == []
            && last.db.log == [f] && f.version in last.db.table && last.lock.Free?
  {
    trace := BeginsAlone(f);
    trace := Extended(trace, 0, RunSql);
    trace := Extended(trace, 0, ResetPath);
    trace := Extended(trace, 0, InsertRow);
    assert trace[|trace| - 1].sessions[0].txn == Open([f], [f]);
    trace := Extended(trace, 0, CommitReplyLost);
    assert trace[|trace| - 1].db.log == [f];
    trace := Extended(trace, 0, RollbackFails);
    trace := Extended(trace, 0, UnlockFails);
  }

  lemma Extended(trace: seq<State>, i: nat, a: Action) returns (longer: seq<State>)
    requires IsRun(trace) && Enabled(trace[|trace| - 1], i, a)
    ensures IsRun(longer) && longer == trace + [Next(trace[|trace| - 1], i, a)]
  {
    longer := trace + [Next(trace[|trace| - 1], i, a)];
    forall n | 0 <= n < |longer| - 1 ensures StepAt(longer, n) {
      if n < |trace| - 1 {
        assert StepAt(trace, n);
      }
    }
  }

  // ------------------------------------------------------------------- the lock

  datatype Step = Step(i: nat, a: Action)

  /** A run together with the step that leads from each state to the next. */
  ghost predicate RecordedRun(trace: seq<State>, steps: seq<Step>) {
    && |trace| == |steps| + 1 && Initial(trace[0])
    && (forall n :: 0 <= n < |steps| ==> RecordedStep(trace, steps, n))
  }

  ghost predicate RecordedStep(trace: seq<State>, steps: seq<Step>, n: int)
    requires 0 <= n < |steps| && |trace| == |steps| + 1
  {
    Enabled(trace[n], steps[n].i, steps[n].a) && trace[n + 1] == Next(trace[n], steps[n].i, steps[n].a)
  }

  lemma RecordedRunIsRun(trace: seq<State>, steps: seq<Step>)
    requires RecordedRun(trace, steps)
    ensures IsRun(trace)
  {
    forall n | 0 <= n < |trace| - 1 ensures StepAt(trace, n) {
      assert RecordedStep(trace, steps, n);
    }
  }

  /** One of the first `n` steps is session `i` getting the lock. */
  ghost predicate TookLock(steps: seq<Step>, n: nat, i: nat)
    requires n <= |steps|
  {
    exists m :: 0 <= m < n && steps[m] == Step(i, GetLock)
  }

  /** One of the two statements whose failure the code swallows has failed for session `i`. */
  ghost predicate CleanUpFailed(steps: seq<Step>, n: nat, i: nat)
    requires n <= |steps|
  {
    exists m :: 0 <= m < n && steps[m].i == i && (steps[m].a.RollbackFails? || steps[m].a.UnlockFails?)
  }

  /** What the steps so far tell about the lock and the transaction of a live session. */
  ghost predicate LockStory(x: Session, took: bool, failed: bool) {
    x.alive ==>
      match x.phase
      case Start => !took && !failed && !x.holds && x.txn.NoTransaction?
      case RollingBack(_, _) => took && !failed && x.holds && x.txn.Open?
      case Unlocking(_) => (x.holds <==> took) && (x.txn.Open? <==> failed) && (failed ==> took)
      case Ended(_) => x.holds <==> took && failed
      case InTransaction(_, _) => took && !failed && x.holds && x.txn.Open?
      case _ => took && !failed && x.holds && x.txn.NoTransaction?
  }

  lemma LockStoryStep(s: State, i: nat, a: Action, took: bool, failed: bool)
    requires Enabled(s, i, a) && LockStory(s.sessions[i], took, failed)
    ensures LockStory(SessionAfter(s, i, a), took || a.GetLock?, failed || a.RollbackFails? || a.UnlockFails?)
  {}

  lemma StepsSnoc(steps: seq<Step>, n: nat, i: nat)
    requires n < |steps|
    ensures TookLock(steps, n + 1, i) <==> TookLock(steps, n, i) || steps[n] == Step(i, GetLock)
    ensures CleanUpFailed(steps, n + 1, i) <==>
              CleanUpFailed(steps, n, i)
              || (steps[n].i == i && (steps[n].a.RollbackFails? || steps[n].a.UnlockFails?))
  {}

  lemma {:induction false} LockStoryHolds(trace: seq<State>, steps: seq<Step>, n: nat, i: nat)
    requires RecordedRun(trace, steps) && n < |trace| && i < |trace[0].sessions|
    ensures |trace[n].sessions| == |trace[0].sessions|
    ensures LockStory(trace[n].sessions[i], TookLock(steps, n, i), CleanUpFailed(steps, n, i))
  {
    if n > 0 {
      LockStoryHolds(trace, steps, n - 1, i);
      StepsSnoc(steps, n - 1, i);
      assert RecordedStep(trace, steps, n - 1);
      var step := steps[n - 1];
      if step.i == i {
        LockStoryStep(trace[n - 1], i, step.a, TookLock(steps, n - 1, i), CleanUpFailed(steps, n - 1, i));
      }
    }
  }

  /** A run that has ended on a live connection still holds the lock exactly when it had taken it and
      its ROLLBACK or its unlock failed. */
  lemma LockKeptExactly(trace: seq<State>, steps: seq<Step>, n: nat, i: nat)
    requires RecordedRun(trace, steps) && n < |trace| && i < |trace[n].sessions|
    requires trace[n].sessions[i].alive && trace[n].sessions[i].phase.Ended?
    ensures trace[n].lock == HeldBy(i) <==> TookLock(steps, n, i) && CleanUpFailed(steps, n, i)
  {
    SessionsStay(trace, steps, n);
    LockStoryHolds(trace, steps, n, i);
    RecordedRunIsRun(trace, steps);
    RunInv(trace, n);
  }

  lemma {:induction false} SessionsStay(trace: seq<State>, steps: seq<Step>, n: nat)
    requires RecordedRun(trace, steps) && n < |trace|
    ensures |trace[n].sessions| == |trace[0].sessions|
  {
    if n > 0 {
      SessionsStay(trace, steps, n - 1);
      assert RecordedStep(trace, steps, n - 1);
    }
  }

  /** A run that has ended and still holds the lock. */
  ghost predicate KeepsLock(s: State, i: nat) {
    && i < |s.sessions| && s.sessions[i].phase.Ended? && s.sessions[i].alive && s.sessions[i].holds
    && s.lock == HeldBy(i)
  }

  /** From then on nobody gets the lock until that connection is cut off. */
  lemma {:induction false} BlockedUntilCutOff(trace: seq<State>, steps: seq<Step>, m: nat, n: nat, i: nat)
    requires RecordedRun(trace, steps) && m <= n < |trace| && KeepsLock(trace[m], i)
    requires forall k | m <= k < n :: steps[k] != Step(i, CutOff)
    ensures KeepsLock(trace[n], i)
    ensures forall j :: !Enabled(trace[n], j, GetLock)
    decreases n
  {
    if m < n {
      BlockedUntilCutOff(trace, steps, m, n - 1, i);
      RecordedRunIsRun(trace, steps);
      RunInv(trace, n - 1);
      assert RecordedStep(trace, steps, n - 1);
      LockNotTaken(trace[n - 1], i, steps[n - 1]);
    }
  }

  lemma LockNotTaken(s: State, i: nat, step: Step)
    requires Inv(s) && KeepsLock(s, i) && Enabled(s, step.i, step.a) && step != Step(i, CutOff)
    ensures KeepsLock(Next(s, step.i, step.a), i)
  {}

  /** Such a run can even have succeeded: there is nothing to apply, the unlock fails and the failure
      is swallowed, and another run that has been waiting cannot begin. */
  lemma LockKeptAfterSuccess() returns (trace: seq<State>)
    ensures IsRun(trace)
    ensures var last := trace[|trace| - 1];
            && |last.sessions| == 2 && last.sessions[0].phase == Ended(Succeeded) && KeepsLock(last, 0)
            && last.sessions[1].phase.Start? && !Enabled(last, 1, GetLock)
  {
    var waiting := Session([], Start, true, false, NoTransaction, map[], 0, []);
    trace := [State(Database(true, map[], [], []), Free, [waiting, waiting])];
    trace := Extended(trace, 0, GetLock);
    trace := Extended(trace, 0, EnsureTable);
    trace := Extended(trace, 0, ReadApplied);
    trace := Extended(trace, 0, ScanEnd);
    trace := Extended(trace, 0, UnlockFails);
  }

  // ------------------------------------------------------------------ rerunning

  lemma {:induction false} NothingPending(files: seq<MigrationFile>, t: Table)
    requires forall k | 0 <= k < |files| :: files[k].version in t
    ensures Pending(files, t) == []
  {
    if files != [] {
      var front := files[..|files| - 1];
      forall k | 0 <= k < |front| ensures front[k].version in t { assert front[k] == files[k]; }
      NothingPending(front, t);
    }
  }

  /** Whatever else runs in between: once a run has succeeded, a later successful run over the same
      files, one that read the table afterwards, applies nothing. */
  lemma RerunAppliesNothing(trace: seq<State>, m: nat, n: nat, i: nat, j: nat)
    requires IsRun(trace) && m <= n < |trace| && i < |trace[m].sessions| && j < |trace[n].sessions|
    requires trace[m].sessions[i].phase == Ended(Succeeded) && trace[n].sessions[j].phase == Ended(Succeeded)
    requires trace[n].sessions[j].files == trace[m].sessions[i].files
    requires trace[n].sessions[j].base >= |trace[m].db.log|
    ensures trace[n].sessions[j].applied == []
  {
    var early, db, y := trace[m].db, trace[n].db, trace[n].sessions[j];
    SuccessMeans(trace, m, i);
    SuccessMeans(trace, n, j);
    RunInv(trace, m);
    RunExtends(trace, m, n);
    forall k | 0 <= k < |y.files| ensures y.files[k].version in y.done {
      AlreadyRead(early, db, y.base, y.files[k].version);
    }
    NothingPending(y.files, y.done);
  }

  lemma AlreadyRead(early: Database, db: Database, base: nat, v: string)
    requires DatabaseOk(early) && early.log <= db.log && |early.log| <= base <= |db.log| && v in early.table
    ensures v in Recorded(map[], db.log[..base])
  {
    RecordedKeys(map[], early.log, v);
    var c :| 0 <= c < |early.log| && early.log[c].version == v;
    assert db.log[..base][c] == early.log[c];
    RecordedKeys(map[], db.log[..base], v);
  }

  // ---------------------------------------------------------- which outcome, and why

  /** One of the first `n` steps is session `i` doing `a`. */
  ghost predicate Did(steps: seq<Step>, n: nat, i: nat, a: Action)
    requires n <= |steps|
  {
    exists m :: 0 <= m < n && steps[m] == Step(i, a)
  }

  lemma DidSnoc(steps: seq<Step>, n: nat, i: nat, a: Action)
    requires n < |steps|
    ensures Did(steps, n + 1, i, a) <==> Did(steps, n, i, a) || steps[n] == Step(i, a)
  {}

  /** What the steps so far tell about where a session is: whether a statement has `failed`, whether
      the table has been `read`, and whether the reply to a COMMIT was `lost`. */
  ghost predicate OutcomeStory(x: Session, failed: bool, read: bool, lost: bool) {
    match x.phase
    case Scanning(_) => !failed && read && !lost
    case InTransaction(_, _) => !failed && read && !lost
    case RollingBack(_, committed) => (failed || lost) && read && (committed <==> lost)
    case Unlocking(o) => OutcomeFits(o, failed, read, lost)
    case Ended(o) => OutcomeFits(o, failed, read, lost)
    case _ => !failed && !read && !lost
  }

  ghost predicate OutcomeFits(o: Outcome, failed: bool, read: bool, lost: bool) {
    match o
    case Succeeded => !failed && read && !lost
    case ChecksumMismatch(_) => !failed && read && !lost
    case SetupFailed => failed && !read && !lost
    case FileFailed(_, committed) => (failed || lost) && read && (committed <==> lost)
  }

  lemma OutcomeStoryStep(s: State, i: nat, a: Action, failed: bool, read: bool, lost: bool)
    requires Enabled(s, i, a) && OutcomeStory(s.sessions[i], failed, read, lost)
    requires a.InsertRow? ==> !InsertFails(s.db, s.sessions[i].files[s.sessions[i].phase.k])
    ensures OutcomeStory(SessionAfter(s, i, a), failed || a.StatementFails?, read || a.ReadApplied?,
                         lost || a.CommitReplyLost?)
  {}

  lemma {:induction false} OutcomeStoryHolds(trace: seq<State>, steps: seq<Step>, n: nat, i: nat)
    requires RecordedRun(trace, steps) && n < |trace| && i < |trace[0].sessions|
    ensures |trace[n].sessions| == |trace[0].sessions|
    ensures OutcomeStory(trace[n].sessions[i], Did(steps, n, i, StatementFails), Did(steps, n, i, ReadApplied),
                         Did(steps, n, i, CommitReplyLost))
  {
    if n > 0 {
      OutcomeStoryHolds(trace, steps, n - 1, i);
      DidSnoc(steps, n - 1, i, StatementFails);
      DidSnoc(steps, n - 1, i, ReadApplied);
      DidSnoc(steps, n - 1, i, CommitReplyLost);
      assert RecordedStep(trace, steps, n - 1);
      if steps[n - 1].i == i {
        RecordedRunIsRun(trace, steps);
        RunIsSafe(trace, n - 1);
        OutcomeStoryStep(trace[n - 1], i, steps[n - 1].a, Did(steps, n - 1, i, StatementFails),
                         Did(steps, n - 1, i, ReadApplied), Did(steps, n - 1, i, CommitReplyLost));
      }
    }
  }

  /** No tracked file of the list has changed since it was applied. */
  ghost predicate Unchanged(files: seq<MigrationFile>, done: Table) {
    forall k | 0 <= k < |files| && files[k].version in done :: done[files[k].version].checksum == files[k].checksum
  }

  /** Why a run ends as it does. Without a failing statement and a lost reply it succeeds, unless a
      tracked file has changed; a failure before the table was read is one of the setup; any other is
      one of a file, which is committed all the same exactly when it was the reply that got lost. */
  lemma OutcomeExactly(trace: seq<State>, steps: seq<Step>, n: nat, i: nat)
    requires RecordedRun(trace, steps) && n < |trace| && i < |trace[n].sessions|
    requires trace[n].sessions[i].phase.Ended?
    ensures var x, o := trace[n].sessions[i], trace[n].sessions[i].phase.outcome;
            var failed, read, lost := Did(steps, n, i, StatementFails), Did(steps, n, i, ReadApplied),
                                      Did(steps, n, i, CommitReplyLost);
            && (o.Succeeded? <==> !failed && !lost && Unchanged(x.files, x.done))
            && (o.ChecksumMismatch? <==> !failed && !lost && !Unchanged(x.files, x.done))
            && (o.SetupFailed? <==> failed && !read)
            && (o.FileFailed? <==> read && (failed || lost))
            && (o.FileFailed? ==> (o.committed <==> lost))
  {
    SessionsStay(trace, steps, n);
    OutcomeStoryHolds(trace, steps, n, i);
    RecordedRunIsRun(trace, steps);
    RunInv(trace, n);
    var x, o := trace[n].sessions[i], trace[n].sessions[i].phase.outcome;
    assert x.files[..|x.files|] == x.files;
    if o.Succeeded? {
      forall k | 0 <= k < |x.files| && x.files[k].version in x.done
        ensures x.done[x.files[k].version].checksum == x.files[k].checksum
      {
        assert !Mismatch(x.files[k], x.done);
      }
    }
  }

  /** Between the start of the run of sessions and the moment session `i` reads the table, it commits
      nothing; and until then, nothing at all. */
  ghost predicate NothingBefore(start: Database, db: Database, i: nat, x: Session, read: bool) {
    && Extends(start, db) && (read ==> x.base <= |db.log|)
    && forall m | |start.log| <= m < (if read then x.base else |db.log|) :: db.author[m] != i
  }

  lemma {:induction false} NothingBeforeReading(trace: seq<State>, steps: seq<Step>, n: nat, i: nat)
    requires RecordedRun(trace, steps) && n < |trace| && i < |trace[n].sessions|
    ensures NothingBefore(trace[0].db, trace[n].db, i, trace[n].sessions[i], Did(steps, n, i, ReadApplied))
  {
    SessionsStay(trace, steps, n);
    RecordedRunIsRun(trace, steps);
    if n > 0 {
      SessionsStay(trace, steps, n - 1);
      NothingBeforeReading(trace, steps, n - 1, i);
      OutcomeStoryHolds(trace, steps, n - 1, i);
      DidSnoc(steps, n - 1, i, ReadApplied);
      RunInv(trace, n - 1);
      assert RecordedStep(trace, steps, n - 1);
      NothingBeforeStep(trace[0].db, trace[n - 1], steps[n - 1], i, Did(steps, n - 1, i, ReadApplied));
    }
  }

  lemma NothingBeforeStep(start: Database, s: State, step: Step, i: nat, read: bool)
    requires Inv(s) && i < |s.sessions| && Enabled(s, step.i, step.a)
    requires NothingBefore(start, s.db, i, s.sessions[i], read)
    requires step.i == i && (step.a.Commit? || step.a.CommitReplyLost?) ==> read
    requires step == Step(i, ReadApplied) ==> !read
    ensures var t := Next(s, step.i, step.a);
            NothingBefore(start, t.db, i, t.sessions[i], read || step == Step(i, ReadApplied))
  {
    StepKeepsInv(s, step.i, step.a);
    var t := Next(s, step.i, step.a);
    ExtendsTransitive(start, s.db, t.db);
    assert step.a.Commit? || step.a.CommitReplyLost? ==>
             forall m | |s.db.log| <= m < |t.db.log| :: t.db.author[m] == step.i;
    assert !(step.a.Commit? || step.a.CommitReplyLost?) ==> t.db.log == s.db.log && t.db.author == s.db.author;
  }

  /** A run whose setup failed has committed nothing. */
  lemma SetupFailureMeans(trace: seq<State>, steps: seq<Step>, n: nat, i: nat)
    requires RecordedRun(trace, steps) && n < |trace| && i < |trace[n].sessions|
    requires trace[n].sessions[i].phase == Ended(SetupFailed)
    ensures !Did(steps, n, i, ReadApplied)
    ensures forall m | |trace[0].db.log| <= m < |trace[n].db.log| && m < |trace[n].db.author| ::
              trace[n].db.author[m] != i
  {
    OutcomeExactly(trace, steps, n, i);
    NothingBeforeReading(trace, steps, n, i);
  }

  /** Of the entries after the first `start`, exactly those of the stretch are by session `i`. */
  ghost predicate ByExactly(db: Database, start: nat, i: nat, from: nat, to: nat) {
    && from <= to <= |db.log| == |db.author|
    && forall m | start <= m < |db.log| :: db.author[m] == i <==> from <= m < to
  }

  lemma ByExactlyWhenRan(start: Database, db: Database, i: nat, x: Session, p: seq<MigrationFile>)
    requires Ran(db, i, x, p) && NothingBefore(start, db, i, x, true)
    ensures ByExactly(db, |start.log|, i, x.base, x.base + |p|)
  {}

  /** The whole account of a successful run: of what has been committed since the start, the files that
      were missing when it read the table are by this run, in order, and nothing else is. */
  lemma SuccessCommitsExactly(trace: seq<State>, steps: seq<Step>, n: nat, i: nat)
    requires RecordedRun(trace, steps) && n < |trace| && i < |trace[n].sessions|
    requires trace[n].sessions[i].phase == Ended(Succeeded)
    ensures var x, db := trace[n].sessions[i], trace[n].db;
            && ByExactly(db, |trace[0].db.log|, i, x.base, x.base + |x.applied|)
            && (forall m | 0 <= m < |x.applied| :: db.log[x.base + m].version == x.applied[m])
            && (forall f :: f in db.log[x.base..x.base + |x.applied|] <==> f in x.files && f.version !in x.done)
  {
    RecordedRunIsRun(trace, steps);
    SuccessMeans(trace, n, i);
    SessionsStay(trace, steps, n);
    OutcomeStoryHolds(trace, steps, n, i);
    NothingBeforeReading(trace, steps, n, i);
    var x, db := trace[n].sessions[i], trace[n].db;
    ByExactlyWhenRan(trace[0].db, db, i, x, Pending(x.files, x.done));
    BlockIsPending(db, i, x);
  }

  lemma BlockIsPending(db: Database, i: nat, x: Session)
    requires Ran(db, i, x, Pending(x.files, x.done)) && x.applied == Versions(Pending(x.files, x.done))
    ensures forall m | 0 <= m < |x.applied| :: db.log[x.base + m].version == x.applied[m]
    ensures forall f :: f in db.log[x.base..x.base + |x.applied|] <==> f in x.files && f.version !in x.done
  {
    var p := Pending(x.files, x.done);
    forall m | 0 <= m < |x.applied| ensures db.log[x.base + m].version == x.applied[m] {
      assert db.log[x.base..x.base + |p|][m] == db.log[x.base + m];
    }
    forall f ensures f in p <==> f in x.files && f.version !in x.done {
      PendingMembers(x.files, x.done, f);
    }
  }

  /** A run that applies a file and succeeds. */
  lemma SuccessfulRun(f: MigrationFile) returns (trace: seq<State>)
    ensures IsRun(trace)
    ensures var last := trace[|trace| - 1];
            && |last.sessions| == 1 && last.sessions[0].files == [f] && last.sessions[0].phase == Ended(Succeeded)
            && last.sessions[0].applied == [f.version] && last.db.log == [f] && last.lock.Free?
            && last.db.table == map[f.version := Row(f.name, f.checksum)]
  {
    trace := BeginsAlone(f);
    trace := Extended(trace, 0, RunSql);
    trace := Extended(trace, 0, ResetPath);
    trace := Extended(trace, 0, InsertRow);
    assert trace[|trace| - 1].sessions[0].txn == Open([f], [f]);
    CommitsAlone(f);
    trace := Extended(trace, 0, Commit);
    trace := Extended(trace, 0, ScanEnd);
    trace := Extended(trace, 0, Unlock);
  }

  lemma CommitsAlone(f: MigrationFile)
    ensures Recorded(map[], [f]) == map[f.version := Row(f.name, f.checksum)]
    ensures [] + [f] == [f]
  {
    assert [f][..0] == [];
    assert Recorded(map[], []) == map[];
  }

  /** No session is ever stuck: until it has ended, there is a step by which it goes on as written, or
      it waits for the lock, or its connection is gone and its next statement fails. */
  lemma NeverStuck(trace: seq<State>, n: nat, i: nat)
    requires IsRun(trace) && n < |trace| && i < |trace[n].sessions| && !trace[n].sessions[i].phase.Ended?
    ensures var s, x := trace[n], trace[n].sessions[i];
            || (x.phase.Start? && x.alive && s.lock.HeldBy?)
            || (exists a :: Enabled(s, i, a) && !a.StatusRun? && !a.CutOff? && (x.alive ==> !Trouble(a)))
  {
    RunInv(trace, n);
    var s, x := trace[n], trace[n].sessions[i];
    if !(x.phase.Start? && x.alive && s.lock.HeldBy?) {
      assert Enabled(s, i, Onwards(x));
    }
  }

  predicate Trouble(a: Action) {
    a.StatementFails? || a.CommitReplyLost? || a.RollbackFails? || a.UnlockFails?
  }

  /** The step a session takes next when nothing goes wrong that has not already. */
  ghost function Onwards(x: Session): Action
    requires !x.phase.Ended?
  {
    match x.phase
    case Start => if x.alive then GetLock else StatementFails
    case Locked => if x.alive then EnsureTable else StatementFails
    case TableReady => if x.alive then ReadApplied else StatementFails
    case Scanning(k) =>
      if k >= |x.files| then ScanEnd
      else if Mismatch(x.files[k], x.done) then ScanMismatch
      else if x.files[k].version in x.done then ScanSkip
      else if x.alive then Begin else StatementFails
    case InTransaction(_, stage) =>
      if !x.alive then StatementFails
      else if stage.Began? then RunSql
      else if stage.SqlRan? then ResetPath
      else if stage.PathReset? then InsertRow
      else Commit
    case RollingBack(_, _) => if x.alive then Rollback else RollbackFails
    case Unlocking(_) => if x.alive then Unlock else UnlockFails
  }
}
