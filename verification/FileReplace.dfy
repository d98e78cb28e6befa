/** Replacing one file: import into a root, export to a plain path, and copy.
    Every disk change is one recorded step, so each recorded state is a place
    where a crash may leave the folder. */
module FileReplace {
  import opened Bytes
  import opened Wrappers

  type Files = map<string, seq<byte>>

  /** One replacement: the folder it found, the three names, the new content. */
  datatype Job = Job(start: Files, dest: string, temp: string, backup: string, source: seq<byte>)

  predicate Distinct(dest: string, temp: string, backup: string)
  {
    dest != temp && dest != backup && temp != backup
  }

  /** The content there is to lose: at the destination or, after an interrupted
      replacement, at the backup name. */
  function Original(files: Files, dest: string, backup: string): Option<seq<byte>>
  {
    if dest in files then Some(files[dest])
    else if backup in files then Some(files[backup])
    else None
  }

  ghost predicate SameExcept(a: Files, b: Files, names: set<string>)
  {
    forall n | n !in names :: (n in a <==> n in b) && (n in a ==> a[n] == b[n])
  }

  /** The destination is absent, all old or all new; what there was is still there
      unless the new content is in place; other files are untouched. */
  ghost predicate Safe(job: Job, files: Files)
  {
    var original := Original(job.start, job.dest, job.backup);
    && (job.dest in files ==> files[job.dest] == job.source || Some(files[job.dest]) == original)
    && (original.Some? && job.dest !in files ==> job.backup in files && files[job.backup] == original.value)
    && SameExcept(files, job.start, {job.dest, job.temp, job.backup})
  }

  function Moved(files: Files, from: string, to: string): Files
    requires from in files
  {
    files[to := files[from]] - {from}
  }

  // --------------------------------------------------- the states in between

  function Filled(job: Job): Files
  {
    job.start[job.temp := job.source]
  }

  function Aside(job: Job): Files
    requires Distinct(job.dest, job.temp, job.backup)
  {
    if job.dest in job.start then Moved(Filled(job), job.dest, job.backup) else Filled(job)
  }

  function InPlace(job: Job): Files
    requires Distinct(job.dest, job.temp, job.backup)
  {
    Moved(Aside(job), job.temp, job.dest)
  }

  lemma SafeWhileFilling(job: Job, files: Files)
    requires Distinct(job.dest, job.temp, job.backup) && SameExcept(files, job.start, {job.temp})
    ensures Safe(job, files) && Safe(job, files - {job.temp})
  {
  }

  lemma SafeAside(job: Job)
    requires Distinct(job.dest, job.temp, job.backup)
    ensures Safe(job, Aside(job)) && Safe(job, Aside(job) - {job.temp})
  {
  }

  lemma SafeInPlace(job: Job)
    requires Distinct(job.dest, job.temp, job.backup)
    ensures Safe(job, InPlace(job)) && Safe(job, InPlace(job) - {job.temp}) && Safe(job, InPlace(job) - {job.backup})
    ensures InPlace(job) - {job.backup} == job.start[job.dest := job.source] - {job.temp, job.backup}
  {
  }

  lemma SafeBack(job: Job, files: Files)
    requires Distinct(job.dest, job.temp, job.backup)
    requires (files == Aside(job) || files == InPlace(job)) && job.backup in files
    ensures Safe(job, Moved(files, job.backup, job.dest))
    ensures Safe(job, Moved(files, job.backup, job.dest) - {job.temp})
  {
  }

  /** Until the backup is deleted both are there, and a crash leaves both: what
      then keeps a later import from succeeding. */
  lemma InPlaceHasBoth(job: Job)
    requires Distinct(job.dest, job.temp, job.backup) && job.dest in job.start
    ensures var files := InPlace(job);
            && job.dest in files && files[job.dest] == job.source
            && job.backup in files && files[job.backup] == job.start[job.dest] && job.temp !in files
  {
  }

  predicate Differs(name: string, other: string)
  {
    name != other
  }

  class Folder {
    var files: Files
    ghost var trace: seq<Files>
    /** How often the system failed, or eight random names in a row were taken. */
    ghost var faults: nat

    ghost predicate Recorded()
      reads this
    {
      trace != [] && trace[|trace| - 1] == files
    }

    /** Every state recorded since the first `n` is safe. */
    ghost predicate SafeSince(job: Job, n: nat)
      reads this
    {
      forall i | n <= i < |trace| :: Safe(job, trace[i])
    }

    /** Some state recorded since the first `n` is this one. */
    ghost predicate Passed(state: Files, n: nat)
      reads this
    {
      exists i :: n <= i < |trace| && trace[i] == state
    }

    // ------------------------------------------------------- single changes

    method MayFail() returns (fails: bool)
      modifies this`faults
      ensures faults == if fails then old(faults) + 1 else old(faults)
    {
      fails := *;
      if fails {
        faults := faults + 1;
      }
    }

    /** A rename that refuses an existing target. */
    method RootRename(from: string, to: string) returns (ok: bool)
      requires Recorded() && from != to
      modifies this
      ensures Recorded() && trace == old(trace) + [files]
      ensures ok ==> from in old(files) && to !in old(files) && files == Moved(old(files), from, to)
      ensures !ok ==> files == old(files)
      ensures faults >= old(faults) && (faults == old(faults) && from in old(files) && to !in old(files) ==> ok)
    {
      var fails := MayFail();
      if to in files || from !in files || fails {
        ok := false;
      } else {
        files := Moved(files, from, to);
        ok := true;
      }
      trace := trace + [files];
    }

    /** The system's own rename replaces the target. */
    method OsRename(from: string, to: string) returns (ok: bool)
      requires Recorded() && from != to
      modifies this
      ensures Recorded() && trace == old(trace) + [files]
      ensures ok ==> from in old(files) && files == Moved(old(files), from, to)
      ensures !ok ==> files == old(files)
      ensures faults >= old(faults) && (faults == old(faults) && from in old(files) ==> ok)
    {
      var fails := MayFail();
      if from !in files || fails {
        ok := false;
      } else {
        files := Moved(files, from, to);
        ok := true;
      }
      trace := trace + [files];
    }

    /** Rename, then sync the parent: an error does not mean nothing happened. */
    method RenameRootEntry(from: string, to: string) returns (ok: bool)
      requires Recorded() && from != to
      modifies this
      ensures Recorded() && trace == old(trace) + [files]
      ensures files == old(files) || (from in old(files) && to !in old(files) && files == Moved(old(files), from, to))
      ensures ok ==> from in old(files) && to !in old(files) && files == Moved(old(files), from, to)
      ensures faults >= old(faults) && (faults == old(faults) && from in old(files) && to !in old(files) ==> ok)
    {
      ok := RootRename(from, to);
      var unsynced := MayFail();
      ok := ok && !unsynced;
    }

    method RenamePath(from: string, to: string) returns (ok: bool)
      requires Recorded() && from != to
      modifies this
      ensures Recorded() && trace == old(trace) + [files]
      ensures files == old(files) || (from in old(files) && files == Moved(old(files), from, to))
      ensures ok ==> from in old(files) && files == Moved(old(files), from, to)
      ensures faults >= old(faults) && (faults == old(faults) && from in old(files) ==> ok)
    {
      ok := OsRename(from, to);
      var unsynced := MayFail();
      ok := ok && !unsynced;
    }

    method Delete(name: string) returns (ok: bool)
      requires Recorded()
      modifies this
      ensures Recorded() && trace == old(trace) + [files]
      ensures files == old(files) || files == old(files) - {name}
      ensures ok ==> files == old(files) - {name}
      ensures faults >= old(faults) && (faults == old(faults) ==> ok)
    {
      var fails := MayFail();
      if !fails {
        files := files - {name};
      }
      var unsynced := MayFail();
      ok := !fails && !unsynced;
      trace := trace + [files];
    }

    /** Opening the temporary file, filling it piece by piece, syncing and closing
        it. Whatever fails, only the temporary name is affected. */
    method FillTemp(temp: string, source: seq<byte>, exclusive: bool) returns (ok: bool)
      requires Recorded()
      modifies this
      ensures Recorded() && old(trace) <= trace
      ensures forall i | |old(trace)| <= i < |trace| :: SameExcept(trace[i], old(files), {temp})
      ensures SameExcept(files, old(files), {temp})
      ensures ok ==> files == old(files)[temp := source]
      ensures exclusive && temp in old(files) ==> !ok && files == old(files) && trace == old(trace)
      ensures ok ==> Passed(files, |old(trace)|)
      ensures faults >= old(faults) && (faults == old(faults) && !(exclusive && temp in old(files)) ==> ok)
    {
      var fails := MayFail();
      if fails || (exclusive && temp in files) {
        return false;
      }
      files := files[temp := []];
      trace := trace + [files];
      var written := WritePieces(temp, source);
      if !written {
        var _ := Delete(temp);
      }
      assert trace[|trace| - 1] == files;
      ok := written;
    }

    /** Copying, syncing and closing. */
    method WritePieces(temp: string, source: seq<byte>) returns (ok: bool)
      requires Recorded() && temp in files && files[temp] == []
      modifies this
      ensures Recorded() && old(trace) <= trace
      ensures forall i | |old(trace)| <= i < |trace| :: SameExcept(trace[i], old(files), {temp})
      ensures SameExcept(files, old(files), {temp})
      ensures ok ==> files == old(files)[temp := source]
      ensures faults >= old(faults) && (faults == old(faults) ==> ok)
    {
      var written := 0;
      var fails := MayFail();
      while written < |source| && !fails
        invariant Recorded() && old(trace) <= trace && written <= |source|
        invariant faults >= old(faults) && (faults == old(faults) ==> !fails)
        invariant files == old(files)[temp := source[..written]]
        invariant forall i | |old(trace)| <= i < |trace| :: SameExcept(trace[i], old(files), {temp})
      {
        var more :| written < more <= |source|;
        files := files[temp := source[..more]];
        trace := trace + [files];
        written := more;
        fails := MayFail();
      }
      if !fails {
        fails := MayFail();
      }
      assert !fails ==> source[..written] == source;
      ok := !fails;
    }

    // ------------------------------------------------------ the three operations

    method ImportFile(dest: string, temp: string, backup: string, source: seq<byte>, overwrite: bool) returns (ok: bool)
      requires Recorded() && Distinct(dest, temp, backup)
      modifies this
      ensures Recorded() && old(trace) <= trace
      ensures SafeSince(Job(old(files), dest, temp, backup, source), |old(trace)|)
      ensures Safe(Job(old(files), dest, temp, backup, source), files)
      ensures ok ==> files == old(files)[dest := source] - {temp, backup}
      ensures !overwrite && dest in old(files) ==> !ok && files == old(files)
      ensures dest in old(files) && backup in old(files) ==> !ok && SameExcept(files, old(files), {temp})
      ensures faults >= old(faults)
      ensures faults == old(faults) ==>
                (ok <==> (overwrite || dest !in old(files)) && !(dest in old(files) && backup in old(files)))
      ensures ok ==> Passed(InPlace(Job(old(files), dest, temp, backup, source)), |old(trace)|)
    {
      ghost var job := Job(files, dest, temp, backup, source);
      SafeWhileFilling(job, files);
      var fails := MayFail();
      if fails || (!overwrite && dest in files) {
        return false;
      }
      ghost var n := |trace|;
      var filled := FillTemp(temp, source, false);
      SafeSinceFill(job, n);
      if !filled {
        return false;
      }
      var moved := MoveAside(job, dest, temp, backup, false);
      if !moved {
        return false;
      }
      ok := CommitImport(job, dest, temp, backup);
    }

    /** The old content is moved out of the way, if there is any. */
    method MoveAside(ghost job: Job, dest: string, temp: string, backup: string, replacing: bool) returns (ok: bool)
      requires Recorded() && Distinct(job.dest, job.temp, job.backup) && files == Filled(job)
      requires (dest, temp, backup) == (job.dest, job.temp, job.backup)
      modifies this
      ensures Recorded() && old(trace) <= trace
      ensures SafeSince(job, |old(trace)|) && Safe(job, files)
      ensures ok ==> files == Aside(job)
      ensures !replacing && dest in job.start && backup in job.start ==> !ok && SameExcept(files, job.start, {temp})
      ensures faults >= old(faults)
      ensures faults == old(faults) ==> (ok <==> replacing || dest !in job.start || backup !in job.start)
    {
      SafeAside(job);
      SafeWhileFilling(job, files);
      if dest !in files {
        return true;
      }
      if replacing {
        ok := RenamePath(dest, backup);
      } else {
        ok := RenameRootEntry(dest, backup);
      }
      if !ok {
        var _ := Delete(temp);
      }
    }

    /** After a failed commit: the old content goes back, if it was moved. */
    method PutBack(ghost job: Job, dest: string, temp: string, backup: string, replacing: bool)
      requires Recorded() && Distinct(job.dest, job.temp, job.backup)
      requires files == Aside(job) || files == InPlace(job)
      requires (dest, temp, backup) == (job.dest, job.temp, job.backup)
      modifies this
      ensures Recorded() && old(trace) <= trace && faults >= old(faults)
      ensures SafeSince(job, |old(trace)|) && Safe(job, files)
    {
      SafeAside(job);
      SafeInPlace(job);
      if backup in files {
        SafeBack(job, files);
        if replacing {
          var _ := RenamePath(backup, dest);
        } else {
          var _ := RenameRootEntry(backup, dest);
        }
      }
      var _ := Delete(temp);
    }

    /** From the moment the old content is out of the way. */
    method CommitImport(ghost job: Job, dest: string, temp: string, backup: string) returns (ok: bool)
      requires Recorded() && Distinct(job.dest, job.temp, job.backup) && files == Aside(job)
      requires (dest, temp, backup) == (job.dest, job.temp, job.backup)
      modifies this
      ensures Recorded() && old(trace) <= trace
      ensures SafeSince(job, |old(trace)|) && Safe(job, files)
      ensures ok ==> files == job.start[dest := job.source] - {temp, backup}
      ensures faults >= old(faults) && (faults == old(faults) ==> ok)
      ensures ok ==> Passed(InPlace(job), |old(trace)|)
    {
      SafeAside(job);
      SafeInPlace(job);
      var committed := RenameRootEntry(temp, dest);
      assert files == Aside(job) || files == InPlace(job);
      if !committed {
        PutBack(job, dest, temp, backup, false);
        return false;
      }
      ghost var k := |trace| - 1;
      if backup in files {
        var removed := Delete(backup);
        if !removed {
          return false;
        }
      }
      assert trace[k] == InPlace(job);
      ok := true;
    }

    method ExportFile(dest: string, temp: string, backup: string, source: seq<byte>, overwrite: bool) returns (ok: bool)
      requires Recorded() && Distinct(dest, temp, backup)
      modifies this
      ensures Recorded() && old(trace) <= trace
      ensures SafeSince(Job(old(files), dest, temp, backup, source), |old(trace)|)
      ensures Safe(Job(old(files), dest, temp, backup, source), files)
      ensures ok ==> files == old(files)[dest := source] - {temp, backup}
      ensures !overwrite && dest in old(files) ==> !ok && files == old(files)
      ensures temp in old(files) ==> !ok && files == old(files)
      ensures faults >= old(faults)
      ensures faults == old(faults) ==> (ok <==> (overwrite || dest !in old(files)) && temp !in old(files))
      ensures ok ==> Passed(Filled(Job(old(files), dest, temp, backup, source)), |old(trace)|)
      ensures ok ==> Passed(InPlace(Job(old(files), dest, temp, backup, source)), |old(trace)|)
    {
      ghost var job := Job(files, dest, temp, backup, source);
      SafeWhileFilling(job, files);
      var fails := MayFail();
      if fails || (!overwrite && dest in files) {
        return false;
      }
      ghost var n := |trace|;
      var filled := FillTemp(temp, source, true);
      SafeSinceFill(job, n);
      if !filled {
        return false;
      }
      ghost var k :| n <= k < |trace| && trace[k] == Filled(job);
      var moved := MoveAside(job, dest, temp, backup, true);
      if !moved {
        return false;
      }
      ok := CommitExport(job, dest, temp, backup);
      assert trace[k] == Filled(job);
    }

    method CommitExport(ghost job: Job, dest: string, temp: string, backup: string) returns (ok: bool)
      requires Recorded() && Distinct(job.dest, job.temp, job.backup) && files == Aside(job)
      requires (dest, temp, backup) == (job.dest, job.temp, job.backup)
      modifies this
      ensures Recorded() && old(trace) <= trace
      ensures SafeSince(job, |old(trace)|) && Safe(job, files)
      ensures ok ==> files == job.start[dest := job.source] - {temp, backup}
      ensures faults >= old(faults) && (faults == old(faults) ==> ok)
      ensures ok ==> Passed(InPlace(job), |old(trace)|)
    {
      SafeAside(job);
      SafeInPlace(job);
      var committed := RenamePath(temp, dest);
      assert files == Aside(job) || files == InPlace(job);
      if !committed {
        PutBack(job, dest, temp, backup, true);
        return false;
      }
      ghost var k := |trace| - 1;
      ok := Delete(backup);
      assert trace[k] == InPlace(job);
    }

    lemma SafeSinceFill(job: Job, n: nat)
      requires Distinct(job.dest, job.temp, job.backup) && n <= |trace| && SameExcept(files, job.start, {job.temp})
      requires forall i | n <= i < |trace| :: SameExcept(trace[i], job.start, {job.temp})
      ensures SafeSince(job, n) && Safe(job, files)
    {
      SafeWhileFilling(job, files);
      forall i | n <= i < |trace| ensures Safe(job, trace[i]) {
        SafeWhileFilling(job, trace[i]);
      }
    }

    /** A random name beside the destination that is not taken; eight tries. */
    method UniqueCopyPath(dest: string) returns (found: bool, name: string)
      modifies this`faults
      ensures found ==> name !in files && Differs(name, dest)
      ensures faults >= old(faults) && (faults == old(faults) ==> found)
    {
      for attempt := 0 to 8
        invariant faults == old(faults)
      {
        var fails := MayFail();
        if fails {
          return false, "";
        }
        assert Differs(dest + "x", dest);
        name :| Differs(name, dest);
        if name !in files {
          return true, name;
        }
      }
      faults := faults + 1;
      return false, "";
    }

    method CopyFile(dest: string, source: seq<byte>, overwrite: bool)
      returns (ok: bool, ghost temp: string, ghost spare: string)
      requires Recorded()
      modifies this
      ensures Recorded() && old(trace) <= trace
      ensures files == old(files) || (temp !in old(files) && spare !in old(files))
      ensures SafeSince(Job(old(files), dest, temp, spare, source), |old(trace)|)
      ensures Safe(Job(old(files), dest, temp, spare, source), files)
      ensures ok ==> files == old(files)[dest := source]
      ensures !overwrite && dest in old(files) ==> !ok && files == old(files)
      ensures faults >= old(faults) && (faults == old(faults) ==> (ok <==> overwrite || dest !in old(files)))
    {
      ghost var start := files;
      temp, spare := dest, dest;
      var destExists := dest in files;
      var fails := MayFail();
      if fails || (destExists && !overwrite) {
        return false, temp, spare;
      }
      var found, name := UniqueCopyPath(dest);
      if !found {
        return false, temp, spare;
      }
      temp, spare := name, name;
      ghost var n := |trace|;
      var filled := FillTemp(name, source, true);
      SafeWithoutBackup(start, dest, name, source, n);
      if !filled {
        return false, temp, spare;
      }
      if !destExists {
        ok := PlaceCopy(start, dest, name, source);
        return ok, temp, spare;
      }
      var free, backup := UniqueCopyPath(dest);
      if !free {
        var _ := Delete(name);
        return false, temp, spare;
      }
      spare := backup;
      ghost var job := Job(start, dest, name, backup, source);
      SafeSinceFill(job, n);
      ok := ReplaceCopy(job, dest, name, backup);
    }

    /** Where there was nothing the copy gets its name. */
    method PlaceCopy(ghost start: Files, dest: string, temp: string, source: seq<byte>) returns (ok: bool)
      requires Recorded() && files == start[temp := source] && dest != temp && dest !in start && temp !in start
      modifies this
      ensures Recorded() && old(trace) <= trace
      ensures SafeSince(Job(start, dest, temp, temp, source), |old(trace)|)
      ensures Safe(Job(start, dest, temp, temp, source), files)
      ensures ok ==> files == start[dest := source]
      ensures faults >= old(faults) && (faults == old(faults) ==> ok)
    {
      ok := RootRename(temp, dest);
      if !ok {
        var _ := Delete(temp);
      }
    }

    method ReplaceCopy(ghost job: Job, dest: string, temp: string, backup: string) returns (ok: bool)
      requires Recorded() && Distinct(job.dest, job.temp, job.backup) && files == Filled(job)
      requires (dest, temp, backup) == (job.dest, job.temp, job.backup)
      requires dest in job.start && temp !in job.start && backup !in job.start
      modifies this
      ensures Recorded() && old(trace) <= trace
      ensures SafeSince(job, |old(trace)|) && Safe(job, files)
      ensures ok ==> files == job.start[dest := job.source]
      ensures faults >= old(faults) && (faults == old(faults) ==> ok)
    {
      SafeWhileFilling(job, files);
      var moved := RootRename(dest, backup);
      if !moved {
        var _ := Delete(temp);
        return false;
      }
      SafeAside(job);
      assert files == Aside(job);
      ok := CommitCopy(job, dest, temp, backup);
      CopiedExactly(job);
    }

    method CommitCopy(ghost job: Job, dest: string, temp: string, backup: string) returns (ok: bool)
      requires Recorded() && Distinct(job.dest, job.temp, job.backup) && files == Aside(job) && backup in files
      requires (dest, temp, backup) == (job.dest, job.temp, job.backup)
      modifies this
      ensures Recorded() && old(trace) <= trace
      ensures SafeSince(job, |old(trace)|) && Safe(job, files)
      ensures ok ==> files == job.start[dest := job.source] - {temp, backup}
      ensures faults >= old(faults) && (faults == old(faults) ==> ok)
    {
      SafeAside(job);
      SafeInPlace(job);
      var committed := RootRename(temp, dest);
      if !committed {
        SafeBack(job, files);
        var _ := RootRename(backup, dest);
        var _ := Delete(temp);
        return false;
      }
      assert files == InPlace(job);
      ok := Delete(backup);
    }

    lemma CopiedExactly(job: Job)
      requires job.temp !in job.start && job.backup !in job.start && Distinct(job.dest, job.temp, job.backup)
      ensures job.start[job.dest := job.source] - {job.temp, job.backup} == job.start[job.dest := job.source]
    {
    }

    /** While only the temporary file changes there is nothing to restore. */
    lemma SafeWithoutBackup(start: Files, dest: string, temp: string, source: seq<byte>, n: nat)
      requires dest != temp && temp !in start && n <= |trace| && SameExcept(files, start, {temp})
      requires forall i | n <= i < |trace| :: SameExcept(trace[i], start, {temp})
      ensures SafeSince(Job(start, dest, temp, temp, source), n)
      ensures Safe(Job(start, dest, temp, temp, source), files)
    {
    }
  }

  // ------------------------------------------------------ one crash after another

  /** An attempt that stopped somewhere: the folder it found, how it left it. */
  datatype Attempt = Attempt(start: Files, stop: Files, source: seq<byte>)

  ghost predicate Interrupted(attempts: seq<Attempt>, dest: string, temp: string, backup: string)
  {
    && (forall i | 0 <= i < |attempts| ::
          Safe(Job(attempts[i].start, dest, temp, backup, attempts[i].source), attempts[i].stop))
    && (forall i | 0 < i < |attempts| :: attempts[i].start == attempts[i - 1].stop)
  }

  /** However often replacing is tried and interrupted, at the destination or at the
      backup name there is the first content or one of the new ones. */
  lemma {:induction false} NoContentIsLost(attempts: seq<Attempt>, dest: string, temp: string, backup: string)
    requires Distinct(dest, temp, backup) && attempts != [] && Interrupted(attempts, dest, temp, backup)
    requires Original(attempts[0].start, dest, backup).Some?
    ensures var left := Original(attempts[|attempts| - 1].stop, dest, backup);
            left == Original(attempts[0].start, dest, backup)
            || exists i :: 0 <= i < |attempts| && left == Some(attempts[i].source)
  {
    var last := attempts[|attempts| - 1];
    var left := Original(last.stop, dest, backup);
    assert Safe(Job(last.start, dest, temp, backup, last.source), last.stop);
    if |attempts| > 1 {
      var before := attempts[..|attempts| - 1];
      NoContentIsLost(before, dest, temp, backup);
      var kept := Original(before[|before| - 1].stop, dest, backup);
      assert last.start == before[|before| - 1].stop;
      assert left == kept || left == Some(last.source);
      if left == kept && kept != Original(attempts[0].start, dest, backup) {
        var i :| 0 <= i < |before| && kept == Some(before[i].source);
        assert left == Some(attempts[i].source);
      }
    } else {
      assert left == Original(last.start, dest, backup) || left == Some(attempts[0].source);
    }
  }
}
