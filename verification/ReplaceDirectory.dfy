/** Swapping a new directory into place, with the old one set aside and restored when that fails.
    Every system call can fail, can be followed by an asynchronous exception, and the process can
    be killed before or after it. */
module ReplaceDirectory {

  /** What a path names. A symbolic link may dangle. */
  datatype Tree = File(content: string) | Link(target: string, dangling: bool) | Directory(entries: map<string, Tree>)

  type Files = map<string, Tree>

  /** What goes wrong at one call, if anything. */
  datatype Fault = NoFault | Fails | RaisesAfter | DiesBefore | DiesAfter

  datatype Plan = Plan(probe: Fault, moveOld: Fault, publish: Fault, probeAgain: Fault, restore: Fault, cleanup: Fault,
                       leftover: Files)

  datatype Outcome = Returned | Raised | Died

  // ------------------------------------------------------------------------ rename(2)

  predicate RenameRefused(files: Files, source: string, target: string) {
    || source !in files
    || (source != target && target in files
        && if files[source].Directory? then !files[target].Directory? || files[target].entries != map[]
           else files[target].Directory?)
  }

  function Renamed(files: Files, source: string, target: string): Files
    requires source in files
  {
    (files - {source})[target := files[source]]
  }

  /** `exists()` follows symbolic links. */
  predicate Exists(files: Files, path: string) {
    path in files && !(files[path].Link? && files[path].dangling)
  }

  predicate IsSymlink(files: Files, path: string) {
    path in files && files[path].Link?
  }

  // ------------------------------------------------------- when a raised call left no trace

  predicate Kills(fault: Fault) {
    fault.DiesBefore? || fault.DiesAfter?
  }

  predicate Quiet(plan: Plan) {
    && !Kills(plan.probe) && !Kills(plan.moveOld) && !Kills(plan.publish)
    && !Kills(plan.probeAgain) && !Kills(plan.restore) && !Kills(plan.cleanup)
  }

  /** The condition under which an exception leaves everything as it was: either nothing had been
      moved, or the old entry was moved and noticed, publishing did nothing, and the way back worked. */
  predicate RollsBack(files: Files, plan: Plan, new_: string, target: string) {
    || !plan.probe.NoFault?
    || (target in files && plan.moveOld.Fails?)
    || (&& (target in files ==> plan.moveOld.NoFault?)
        && (plan.publish.Fails? || new_ !in files || new_ == target)
        && (target in files ==> plan.probeAgain.NoFault? && !plan.restore.Fails?))
  }

  /** The old entry is whole, at the target or at the backup, or the new one is at the target. */
  ghost predicate Safe(before: Files, after: Files, new_: string, target: string, backup: string) {
    target in before ==>
      || (target in after && after[target] == before[target])
      || (backup in after && after[backup] == before[target])
      || (new_ in before && target in after && after[target] == before[new_])
  }

  ghost predicate OthersUntouched(before: Files, after: Files, new_: string, target: string, backup: string) {
    forall p | p !in {new_, target, backup} ::
      (p in after <==> p in before) && (p in before ==> after[p] == before[p])
  }

  /** The call did its work, whether or not the caller came to know. */
  predicate TookEffect(fault: Fault) {
    !fault.Fails? && !fault.DiesBefore?
  }

  /** The old entry set aside, if `moved`; and then the new one in its place, if `published`. */
  function Showing(files: Files, new_: string, target: string, backup: string, moved: bool, published: bool): Files
    requires backup !in files && backup != target && backup != new_
    requires moved ==> target in files
    requires published ==> new_ in files && new_ != target
  {
    var aside := if moved then Renamed(files, target, backup) else files;
    if published then Renamed(aside, new_, target) else aside
  }

  /** Whichever of the renames took effect: the old entry is whole at the target or at the backup, the
      new one is where it was or at the target, and no other path is concerned. */
  lemma RenamesAreSafe(files: Files, new_: string, target: string, backup: string, moved: bool, published: bool)
    requires backup !in files && backup != target && backup != new_
    requires moved ==> target in files
    requires published ==> new_ in files && new_ != target && (target in files ==> moved)
    ensures var after := Showing(files, new_, target, backup, moved, published);
            && Safe(files, after, new_, target, backup)
            && OthersUntouched(files, after, new_, target, backup)
            && (new_ in files && new_ != target ==> Survives(files, after, new_, target))
            && (target in files ==> (backup in after <==> moved) && (target in after <==> !moved || published))
  {}

  /** The entry to publish is still there, under its old name or under the target's. */
  ghost predicate Survives(before: Files, after: Files, new_: string, target: string)
    requires new_ in before
  {
    || (new_ in after && after[new_] == before[new_])
    || (target in after && after[target] == before[new_])
  }

  /** When the roll-back destroys the entry to publish: it is a dangling link, an exception arrives
      right after it was moved in, and the old entry, which is no directory, is moved back over it. */
  predicate LosesNew(files: Files, plan: Plan, new_: string, target: string)
    requires new_ in files
  {
    && target in files && !files[target].Directory? && files[target] != files[new_]
    && plan.probe.NoFault? && plan.moveOld.NoFault?
    && plan.publish.RaisesAfter? && !Exists(files, new_)
    && plan.probeAgain.NoFault? && TookEffect(plan.restore)
  }

  /** What moving the old entry back makes of each of these states. */
  lemma PutBackMeans(files: Files, new_: string, target: string, backup: string, published: bool)
    requires backup !in files && backup != target && backup != new_ && target in files
    requires published ==> new_ in files && new_ != target
    ensures var after := Renamed(Showing(files, new_, target, backup, true, published), backup, target);
            && after == (if published then files - {new_} else files)
            && Safe(files, after, new_, target, backup)
            && OthersUntouched(files, after, new_, target, backup)
            && (new_ in files && new_ != target ==>
                  (Survives(files, after, new_, target) <==> !published || files[target] == files[new_]))
  {}

  class FileSystem {
    var files: Files

    method Rename(source: string, target: string, fault: Fault) returns (o: Outcome)
      modifies this
      ensures o.Died? <==> Kills(fault)
      ensures o.Returned? <==> fault.NoFault? && !RenameRefused(old(files), source, target)
      ensures files == if !TookEffect(fault) || RenameRefused(old(files), source, target) || source == target
                       then old(files) else Renamed(old(files), source, target)
    {
      if fault.DiesBefore? { return Died; }
      if fault.Fails? { return Raised; }
      if !RenameRefused(files, source, target) && source != target {
        files := Renamed(files, source, target);
        if fault.NoFault? { return Returned; }
      } else if !RenameRefused(files, source, target) && fault.NoFault? {
        return Returned;
      }
      o := if fault.DiesAfter? then Died else Raised;
    }

    /** Removing the set-aside entry; interrupted, it may leave any part of it behind. */
    method Remove(path: string, fault: Fault, leftover: Files) returns (o: Outcome)
      requires path in files
      modifies this
      ensures o.Returned? <==> fault.NoFault?
      ensures o.Died? <==> Kills(fault)
      ensures fault.NoFault? ==> files == old(files) - {path}
      ensures forall p | p != path :: (p in files <==> p in old(files)) && (p in files ==> files[p] == old(files)[p])
    {
      if fault.NoFault? {
        files := files - {path};
        return Returned;
      }
      if path in leftover {
        files := files[path := leftover[path]];
      }
      o := if Kills(fault) then Died else Raised;
    }

    /** Looking at a path changes nothing, but the calls can raise all the same. */
    method Look(fault: Fault) returns (o: Outcome)
      ensures o.Returned? <==> fault.NoFault?
      ensures o.Died? <==> Kills(fault)
    {
      o := if fault.NoFault? then Returned else if fault.Fails? || fault.RaisesAfter? then Raised else Died;
    }

    /** The `try` block: set the old entry aside, then move the new one in. */
    method Swap(new_: string, target: string, backup: string, plan: Plan) returns (o: Outcome, movedOld: bool)
      requires backup !in files && backup != target && backup != new_
      modifies this
      ensures movedOld <==> target in old(files) && plan.probe.NoFault? && plan.moveOld.NoFault?
      ensures var reached := plan.probe.NoFault? && (target in old(files) ==> plan.moveOld.NoFault?);
              && files == Showing(old(files), new_, target, backup,
                                  target in old(files) && plan.probe.NoFault? && TookEffect(plan.moveOld),
                                  reached && TookEffect(plan.publish) && new_ in old(files) && new_ != target)
              && (o.Returned? <==> reached && plan.publish.NoFault? && new_ in old(files) && new_ != target)
              && (o.Died? <==> || Kills(plan.probe)
                               || (plan.probe.NoFault? && target in old(files) && Kills(plan.moveOld))
                               || (reached && Kills(plan.publish)))
    {
      movedOld := false;
      o := Look(plan.probe);
      if !o.Returned? { return; }
      if Exists(files, target) || IsSymlink(files, target) {
        o := Rename(target, backup, plan.moveOld);
        if !o.Returned? { return; }
        movedOld := true;
      }
      o := Rename(new_, target, plan.publish);
    }

    /** The way back, which ends by raising the exception that led to it, or another. */
    method PutBack(target: string, backup: string, plan: Plan) returns (o: Outcome)
      modifies this
      ensures files == if plan.probeAgain.NoFault? && !Exists(old(files), target) && TookEffect(plan.restore)
                          && !RenameRefused(old(files), backup, target) && backup != target
                       then Renamed(old(files), backup, target) else old(files)
      ensures o.Raised? || (o.Died? && !Quiet(plan))
    {
      o := Look(plan.probeAgain);
      if !o.Returned? { return; }
      if !Exists(files, target) {
        o := Rename(backup, target, plan.restore);
      }
      if o.Returned? { o := Raised; }
    }

    /** The whole of `replace_directory`, with `backup` the fresh name it draws. */
    method Replace(new_: string, target: string, backup: string, plan: Plan) returns (o: Outcome)
      requires backup !in files && backup != target && backup != new_
      modifies this
      ensures Safe(old(files), files, new_, target, backup)
      ensures OthersUntouched(old(files), files, new_, target, backup)
      ensures o.Returned? <==> && plan.probe.NoFault? && plan.publish.NoFault? && new_ in old(files) && new_ != target
                               && (target in old(files) ==> plan.moveOld.NoFault? && plan.cleanup.NoFault?)
      ensures o.Returned? ==> files == Renamed(old(files), new_, target)
      ensures o.Raised? && Quiet(plan) ==> (files == old(files) <==> RollsBack(old(files), plan, new_, target))
      ensures o.Died? ==> !Quiet(plan)
      ensures new_ in old(files) && new_ != target ==>
                (Survives(old(files), files, new_, target) <==> !LosesNew(old(files), plan, new_, target))
      ensures new_ in old(files) && LosesNew(old(files), plan, new_, target) ==> files == old(files) - {new_}
      ensures target in old(files) && plan.probe.NoFault? && plan.moveOld.RaisesAfter? ==>
                o.Raised? && files == Renamed(old(files), target, backup)
    {
      var movedOld;
      o, movedOld := Swap(new_, target, backup, plan);
      ghost var moved := target in old(files) && plan.probe.NoFault? && TookEffect(plan.moveOld);
      ghost var published := && plan.probe.NoFault? && (target in old(files) ==> plan.moveOld.NoFault?)
                             && TookEffect(plan.publish) && new_ in old(files) && new_ != target;
      RenamesAreSafe(old(files), new_, target, backup, moved, published);
      if o.Died? { return; }
      if o.Raised? {
        if movedOld {
          PutBackMeans(old(files), new_, target, backup, published);
          o := PutBack(target, backup, plan);
        }
        return;
      }
      if movedOld {
        o := Remove(backup, plan.cleanup, plan.leftover);
      }
    }
  }

  /** The rollback is not unconditional: an exception delivered right after the old entry was set
      aside, before that is noted, leaves the target missing although nothing else goes wrong. */
  method UnnoticedMove(fs: FileSystem, new_: string, target: string, backup: string) returns (o: Outcome, plan: Plan)
    requires backup !in fs.files && backup != target && backup != new_ && target in fs.files
    modifies fs
    ensures plan == Plan(NoFault, RaisesAfter, NoFault, NoFault, NoFault, NoFault, map[])
    ensures o.Raised? && !RollsBack(old(fs.files), plan, new_, target)
    ensures target !in fs.files && backup in fs.files && fs.files[backup] == old(fs.files)[target]
  {
    plan := Plan(NoFault, RaisesAfter, NoFault, NoFault, NoFault, NoFault, map[]);
    o := fs.Replace(new_, target, backup, plan);
  }

  /** And it can cost the entry that was to be published: a file gives way to a dangling link, the
      call is interrupted right after the link was moved in, and the link is gone. */
  method LostLink() returns (fs: FileSystem, o: Outcome)
    ensures fresh(fs)
    ensures o.Raised? && fs.files == map["target" := File("old")]
  {
    fs := new FileSystem;
    fs.files := map["new" := Link("elsewhere", true), "target" := File("old")];
    var plan := Plan(NoFault, NoFault, RaisesAfter, NoFault, NoFault, NoFault, map[]);
    o := fs.Replace("new", "target", "backup", plan);
  }
}
