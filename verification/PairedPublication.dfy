/**
 Publishing two artifacts together or not at all
 (`publish_pair` in scripts/local/phase4al_offline_protocol_simulation.py).
 */
module PairedPublication {
  import opened Support

  /** A destination, and the process's temporary and backup files for it. */
  datatype Path = Final(name: string) | Temporary(name: string) | Backup(name: string)

  type Files = map<Path, string>

  datatype Step = WriteReport | WriteProof | BackUpReport | BackUpProof | RenameReport | RenameProof {
    function Rank(): nat {
      match this
      case WriteReport => 0
      case WriteProof => 1
      case BackUpReport => 2
      case BackUpProof => 3
      case RenameReport => 4
      case RenameProof => 5
    }
  }

  /** How the file system may fail a step: without effect, or, when writing, leaving a torn file behind. */
  datatype Fault = NoFault | Fails | Tears(content: string)

  datatype Outcome = Published | OutputExists | Failed(step: Step)

  function Clean(files: Files, report: string, proof: string): Files {
    files - {Temporary(report), Temporary(proof), Backup(report), Backup(proof)}
  }

  predicate SameFile(a: Files, b: Files, path: Path) {
    (path in a <==> path in b) && (path in a ==> a[path] == b[path])
  }

  function Restored(files: Files, name: string): Files {
    if Backup(name) in files then files[Final(name) := files[Backup(name)]] - {Backup(name)} else files
  }

  /** Whether this call had moved the destination aside before the failing step. */
  predicate MovedAside(files: Files, replace: bool, name: string, backUp: Step, failed: Step) {
    replace && Final(name) in files && failed.Rank() > backUp.Rank()
  }

  /** The paths a call may touch. */
  function PathsOf(report: string, proof: string): set<Path> {
    {Final(report), Temporary(report), Backup(report), Final(proof), Temporary(proof), Backup(proof)}
  }

  /** Outside the six paths of a call nothing changes. */
  ghost predicate SameElsewhere(a: Files, b: Files, report: string, proof: string) {
    forall path | path !in PathsOf(report, proof) ::
      SameFile(a, b, path)
  }

  lemma SameElsewhereTransitive(a: Files, b: Files, c: Files, report: string, proof: string)
    requires SameElsewhere(a, b, report, proof) && SameElsewhere(b, c, report, proof)
    ensures SameElsewhere(a, c, report, proof)
  {
    forall path | path !in PathsOf(report, proof)
      ensures SameFile(a, c, path)
    {
      assert SameFile(a, b, path) && SameFile(b, c, path);
    }
  }

  /** One destination in the middle of a call: moved to its backup, or not yet touched. */
  ghost predicate DestinationUnderway(start: Files, now: Files, replace: bool, name: string, backUp: Step, step: Step) {
    if MovedAside(start, replace, name, backUp, step) then
      Final(name) !in now && Backup(name) in now && now[Backup(name)] == start[Final(name)]
    else
      SameFile(now, start, Final(name)) && SameFile(now, start, Backup(name))
  }

  ghost predicate Underway(start: Files, now: Files, report: string, proof: string, replace: bool, step: Step) {
    && SameElsewhere(now, start, report, proof)
    && DestinationUnderway(start, now, replace, report, BackUpReport, step)
    && DestinationUnderway(start, now, replace, proof, BackUpProof, step)
  }

  /** A backup left by an earlier process overwrites the destination, unless this call replaced that backup. */
  function Revived(files: Files, replace: bool, name: string, backUp: Step, failed: Step): Files {
    if Backup(name) in files && !MovedAside(files, replace, name, backUp, failed) then
      files[Final(name) := files[Backup(name)]]
    else files
  }

  /** The directory after a failed publication, in terms of the directory before it. */
  function AfterFailure(files: Files, report: string, proof: string, replace: bool, failed: Step): Files {
    var revived := Revived(Revived(files, replace, report, BackUpReport, failed), replace, proof, BackUpProof, failed);
    Clean(revived, report, proof)
  }

  lemma FailureUndone(start: Files, now: Files, report: string, proof: string, replace: bool, step: Step)
    requires Underway(start, now, report, proof, replace, step)
    ensures Clean(Restored(Restored(now, report), proof), report, proof)
         == AfterFailure(start, report, proof, replace, step)
  {
    var left := Clean(Restored(Restored(now, report), proof), report, proof);
    var right := AfterFailure(start, report, proof, replace, step);
    forall path
      ensures path in left <==> path in right
      ensures path in left ==> left[path] == right[path]
    {
      if path !in PathsOf(report, proof) {
        assert SameFile(now, start, path);
      }
    }
  }

  lemma PublicationDone(
    start: Files, now: Files, report: string, proof: string, reportContent: string, proofContent: string)
    requires SameElsewhere(now, start, report, proof)
    requires report != proof
    requires Final(report) in now && now[Final(report)] == reportContent
    requires Final(proof) in now && now[Final(proof)] == proofContent
    ensures Clean(now, report, proof)
         == Clean(start, report, proof)[Final(report) := reportContent][Final(proof) := proofContent]
  {
    var left := Clean(now, report, proof);
    var right := Clean(start, report, proof)[Final(report) := reportContent][Final(proof) := proofContent];
    forall path
      ensures path in left <==> path in right
      ensures path in left ==> left[path] == right[path]
    {
      if path !in PathsOf(report, proof) {
        assert SameFile(now, start, path);
      }
    }
  }

  /** The first step that fails, if the publication gets to its steps. */
  function FirstFailure(files: Files, report: string, proof: string, replace: bool, faults: Step -> Fault): Option<Step>
  {
    if Temporary(report) in files || faults(WriteReport) != NoFault then Some(WriteReport)
    else if report == proof || Temporary(proof) in files || faults(WriteProof) != NoFault then Some(WriteProof)
    else if replace && Final(report) in files && faults(BackUpReport) != NoFault then Some(BackUpReport)
    else if replace && Final(proof) in files && faults(BackUpProof) != NoFault then Some(BackUpProof)
    else if faults(RenameReport) != NoFault then Some(RenameReport)
    else if faults(RenameProof) != NoFault then Some(RenameProof)
    else None
  }

  function ExpectedOutcome(files: Files, report: string, proof: string, replace: bool, faults: Step -> Fault): Outcome {
    if !replace && (Final(report) in files || Final(proof) in files) then OutputExists
    else
      var failed := FirstFailure(files, report, proof, replace, faults);
      if failed.Some? then Failed(failed.value) else Published
  }

  // ---- The publication as the program performs it ----

  class PublicationDirectory {
    var files: Files

    constructor (files: Files)
      ensures this.files == files
    {
      this.files := files;
    }

    /** Exclusive creation: refused when the path exists. */
    method Create(path: Path, content: string, fault: Fault) returns (ok: bool)
      modifies this
      ensures ok == (path !in old(files) && fault == NoFault)
      ensures files ==
        if path in old(files) || fault == Fails then old(files)
        else old(files)[path := if fault.Tears? then fault.content else content]
    {
      if path in files || fault == Fails {
        return false;
      }
      files := files[path := if fault.Tears? then fault.content else content];
      ok := fault == NoFault;
    }

    /** Atomic replacement; it either happens or has no effect. */
    method Rename(source: Path, target: Path, fault: Fault) returns (ok: bool)
      requires source in files && source != target
      modifies this
      ensures ok == (fault == NoFault)
      ensures files == if ok then old(files)[target := old(files)[source]] - {source} else old(files)
    {
      ok := fault == NoFault;
      if ok {
        files := files[target := files[source]] - {source};
      }
    }

    method Unlink(path: Path)
      modifies this
      ensures files == old(files) - {path}
    {
      files := files - {path};
    }

    method Restore(name: string)
      modifies this
      ensures files ==
        if Backup(name) in old(files) then old(files)[Final(name) := old(files)[Backup(name)]] - {Backup(name)}
        else old(files)
    {
      if Backup(name) in files {
        var _ := Rename(Backup(name), Final(name), NoFault);
      }
    }

    method CleanUp(report: string, proof: string)
      modifies this
      ensures files == Clean(old(files), report, proof)
    {
      Unlink(Temporary(report));
      Unlink(Temporary(proof));
      Unlink(Backup(report));
      Unlink(Backup(proof));
      assert files == Clean(old(files), report, proof);
    }

    /** The exception handler, then the final clean-up. */
    method GiveUp(report: string, proof: string, published: bool, replace: bool, step: Step, ghost start: Files)
      returns (outcome: Outcome)
      requires
        var kept := if published then files - {Final(report)} else files;
        Underway(start, kept, report, proof, replace, step)
      modifies this
      ensures outcome == Failed(step)
      ensures files == AfterFailure(start, report, proof, replace, step)
    {
      hide Underway, AfterFailure;
      if published {
        Unlink(Final(report));
      }
      FailureUndone(start, files, report, proof, replace, step);
      Restore(report);
      Restore(proof);
      CleanUp(report, proof);
      outcome := Failed(step);
    }

    /** Writes both temporaries; returns the failing step, if any. */
    method WriteBoth(report: string, proof: string, reportContent: string, proofContent: string, faults: Step -> Fault)
      returns (failed: Option<Step>)
      modifies this
      ensures forall path | path !in {Temporary(report), Temporary(proof)} :: SameFile(files, old(files), path)
      ensures failed ==
        if Temporary(report) in old(files) || faults(WriteReport) != NoFault then Some(WriteReport)
        else if report == proof || Temporary(proof) in old(files) || faults(WriteProof) != NoFault then Some(WriteProof)
        else None
      ensures failed.None? ==> Temporary(report) in files && Temporary(proof) in files
      ensures failed.None? ==> files[Temporary(report)] == reportContent && files[Temporary(proof)] == proofContent
    {
      var ok := Create(Temporary(report), reportContent, faults(WriteReport));
      if !ok {
        return Some(WriteReport);
      }
      ok := Create(Temporary(proof), proofContent, faults(WriteProof));
      failed := if ok then None else Some(WriteProof);
    }

    /** Moves the existing destinations to their backups; returns the failing step, if any. */
    method MoveBothAside(report: string, proof: string, faults: Step -> Fault) returns (failed: Option<Step>)
      requires report != proof
      modifies this
      ensures SameElsewhere(files, old(files), report, proof)
      ensures SameFile(files, old(files), Temporary(report)) && SameFile(files, old(files), Temporary(proof))
      ensures
        var step := if failed.Some? then failed.value else RenameReport;
        && DestinationUnderway(old(files), files, true, report, BackUpReport, step)
        && DestinationUnderway(old(files), files, true, proof, BackUpProof, step)
      ensures failed ==
        if Final(report) in old(files) && faults(BackUpReport) != NoFault then Some(BackUpReport)
        else if Final(proof) in old(files) && faults(BackUpProof) != NoFault then Some(BackUpProof)
        else None
    {
      if Final(report) in files {
        var ok := Rename(Final(report), Backup(report), faults(BackUpReport));
        if !ok {
          return Some(BackUpReport);
        }
      }
      if Final(proof) in files {
        var ok := Rename(Final(proof), Backup(proof), faults(BackUpProof));
        if !ok {
          return Some(BackUpProof);
        }
      }
      failed := None;
    }

    /** Renames both temporaries into place, or restores the destinations. */
    method RenameBoth(
      report: string, proof: string, replace: bool, faults: Step -> Fault, ghost start: Files)
      returns (outcome: Outcome)
      requires report != proof && Temporary(report) in files && Temporary(proof) in files
      requires Underway(start, files, report, proof, replace, RenameReport)
      requires !replace ==> Final(report) !in start
      modifies this
      ensures outcome == Published ==>
        files == Clean(start, report, proof)
          [Final(report) := old(files)[Temporary(report)]][Final(proof) := old(files)[Temporary(proof)]]
      ensures outcome.Failed? ==> files == AfterFailure(start, report, proof, replace, outcome.step)
      ensures outcome ==
        if faults(RenameReport) != NoFault then Failed(RenameReport)
        else if faults(RenameProof) != NoFault then Failed(RenameProof)
        else Published
    {
      hide AfterFailure, Clean;
      ghost var reportContent, proofContent := files[Temporary(report)], files[Temporary(proof)];
      var ok := Rename(Temporary(report), Final(report), faults(RenameReport));
      if !ok {
        outcome := GiveUp(report, proof, false, replace, RenameReport, start);
        return;
      }
      ok := Rename(Temporary(proof), Final(proof), faults(RenameProof));
      SameElsewhereTransitive(files, old(files), start, report, proof);
      if !ok {
        SameElsewhereTransitive(files - {Final(report)}, files, start, report, proof);
        outcome := GiveUp(report, proof, true, replace, RenameProof, start);
        return;
      }
      PublicationDone(start, files, report, proof, reportContent, proofContent);
      CleanUp(report, proof);
      outcome := Published;
    }

    method PublishPair(
      report: string, proof: string, reportContent: string, proofContent: string,
      replace: bool, faults: Step -> Fault) returns (outcome: Outcome)
      modifies this
      ensures outcome == ExpectedOutcome(old(files), report, proof, replace, faults)
      ensures outcome == OutputExists ==> files == old(files)
      ensures outcome == Published ==>
        && report != proof
        && files == Clean(old(files), report, proof)[Final(report) := reportContent][Final(proof) := proofContent]
      ensures outcome.Failed? ==> files == AfterFailure(old(files), report, proof, replace, outcome.step)
    {
      hide AfterFailure, Clean;
      if !replace && (Final(report) in files || Final(proof) in files) {
        return OutputExists;
      }
      ghost var start := files;
      var failed := WriteBoth(report, proof, reportContent, proofContent, faults);
      if failed.Some? {
        outcome := GiveUp(report, proof, false, replace, failed.value, start);
        return;
      }
      ghost var written := files;
      assert SameFile(written, start, Final(report)) && SameFile(written, start, Backup(report));
      assert SameFile(written, start, Final(proof)) && SameFile(written, start, Backup(proof));
      if replace {
        failed := MoveBothAside(report, proof, faults);
        SameElsewhereTransitive(files, written, start, report, proof);
        if failed.Some? {
          outcome := GiveUp(report, proof, false, replace, failed.value, start);
          return;
        }
        assert SameFile(files, written, Temporary(report)) && SameFile(files, written, Temporary(proof));
      }
      outcome := RenameBoth(report, proof, replace, faults, start);
    }
  }

  // ---- What a failure leaves ----

  /** With no stale backup, a failed publication leaves both destinations exactly as they were, absent included. */
  lemma FailureRestoresBoth(files: Files, report: string, proof: string, replace: bool, failed: Step)
    requires Backup(report) !in files && Backup(proof) !in files
    ensures AfterFailure(files, report, proof, replace, failed) == Clean(files, report, proof)
  {
  }

  /** No earlier process left a backup of the destination that differs from it. */
  predicate NoStaleBackup(files: Files, name: string) {
    Backup(name) !in files || (Final(name) in files && files[Final(name)] == files[Backup(name)])
  }

  /** When a publication that fails at a given step leaves a destination as it was; one name for both fails early. */
  lemma FailureRestoresExactly(files: Files, report: string, proof: string, replace: bool, failed: Step)
    requires report != proof || failed.Rank() < 2
    ensures
      var after := AfterFailure(files, report, proof, replace, failed);
      && (SameFile(after, files, Final(report)) <==>
            MovedAside(files, replace, report, BackUpReport, failed) || NoStaleBackup(files, report))
      && (SameFile(after, files, Final(proof)) <==>
            MovedAside(files, replace, proof, BackUpProof, failed) || NoStaleBackup(files, proof))
  {
  }

  /** Whatever faults strike, a call that fails leaves the destination as it was. */
  ghost predicate EveryFailureSpares(files: Files, report: string, proof: string, replace: bool, name: string) {
    forall faults: Step -> Fault ::
      var outcome := ExpectedOutcome(files, report, proof, replace, faults);
      outcome.Failed? ==> SameFile(AfterFailure(files, report, proof, replace, outcome.step), files, Final(name))
  }

  /**
   What a caller can check beforehand: whatever faults strike, a failed publication leaves each destination exactly as
   it was, if and only if there is no stale backup of it, or the call is refused at once because an output exists.
   */
  lemma EveryFailureSparesExactly(files: Files, report: string, proof: string, replace: bool)
    ensures
      var refused := !replace && (Final(report) in files || Final(proof) in files);
      && (EveryFailureSpares(files, report, proof, replace, report) <==> refused || NoStaleBackup(files, report))
      && (EveryFailureSpares(files, report, proof, replace, proof) <==> refused || NoStaleBackup(files, proof))
  {
    hide AfterFailure, NoStaleBackup;
    forall failed: Step | report != proof || failed.Rank() < 2
      ensures
        var after := AfterFailure(files, report, proof, replace, failed);
        && (SameFile(after, files, Final(report)) <==>
              MovedAside(files, replace, report, BackUpReport, failed) || NoStaleBackup(files, report))
        && (SameFile(after, files, Final(proof)) <==>
              MovedAside(files, replace, proof, BackUpProof, failed) || NoStaleBackup(files, proof))
    {
      FailureRestoresExactly(files, report, proof, replace, failed);
    }
    var always: Step -> Fault := step => Fails;
    assert ExpectedOutcome(files, report, proof, replace, always)
        == if !replace && (Final(report) in files || Final(proof) in files) then OutputExists else Failed(WriteReport);
  }

  /** A directory in which a first write that fails replaces both current files by what an earlier process left. */
  lemma StaleBackupsReplaceCurrentFiles()
    ensures
      var files: Files := map[
        Final("report.json") := "current report", Backup("report.json") := "stale report",
        Final("proof.json") := "current proof", Backup("proof.json") := "stale proof"];
      var outcome := ExpectedOutcome(files, "report.json", "proof.json", true, step => Fails);
      && outcome == Failed(WriteReport)
      && AfterFailure(files, "report.json", "proof.json", true, WriteReport)
         == map[Final("report.json") := "stale report", Final("proof.json") := "stale proof"]
  {
    assert "report.json"[0] != "proof.json"[0];
    assert "report.json" != "proof.json";
  }
}
