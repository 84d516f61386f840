/**
 What appends that die leave in the history directory (`append` in scripts/local/phase4ac_artifact_history.py): which
 files remain after any run, and when a retry is refused because of them.
 */
module HistoryLeftovers {
  import opened Support
  import opened ArtifactHistory
  import opened HistoryRuns

  // ---- Which files remain ----

  lemma {:induction false} UnlinkableExact(combined: seq<Entry>, kept: set<FileName>, files: map<FileName, Entry>)
    ensures forall name :: name in Unlinkable(combined, kept, files) <==>
      name in Names(combined) && name !in kept && name in files
    ensures forall i, j :: 0 <= i < j < |Unlinkable(combined, kept, files)| ==>
      Unlinkable(combined, kept, files)[i] != Unlinkable(combined, kept, files)[j]
  {
    hide NameOf;
    if combined != [] {
      var name := NameOf(combined[0]);
      assert combined == [combined[0]] + combined[1..];
      assert Names(combined) == {name} + Names(combined[1..]);
      UnlinkableExact(combined[1..], kept, files - {name});
      UnlinkableExact(combined[1..], kept, files);
    }
  }

  /** What a committed append retains, and the files it has left so far. */
  lemma AfterCommit(
    h: Hashes, d: Directory, l: Ledger, source: Source, kind: string, retention: int, n: nat, name: FileName)
    requires Holds(h, d, l) && PlanAppend(h, d, source, kind, retention).Ok? && n >= 2
    ensures
      var plan := PlanAppend(h, d, source, kind, retention).value;
      var after := Perform(d, plan, n);
      var combined := Retained(d, l.all) + [plan.entry];
      && NameOf(plan.entry) !in d.files
      && Retained(after, l.all + [plan.entry]) == KeepLast(combined, retention)
      && (name in after.files <==>
            (name in d.files || name == NameOf(plan.entry)) && name !in FirstOf(plan.pruned, n - 2))
      && (name in plan.pruned <==>
            && name in Names(combined) && name !in Names(KeepLast(combined, retention))
            && (name in d.files || name == NameOf(plan.entry)))
      && (name in after.files && name in d.files ==> after.files[name] == d.files[name])
  {
    hide IsSound, NameOf, PlanAppend, Linked, NewEntry, ManifestOf, KeepLast, Retained, Unlinkable, SourceHashes,
      Holds, Names;
    AcceptedExactly(h, d, l, source, kind, retention);
    var plan := PlanAppend(h, d, source, kind, retention).value;
    var kept := KeptAfterAppend(d, l.all, plan.entry, retention);
    RetainedCountOf(h, |l.all| + 1, SourceHashes(l.all + [plan.entry]), kept);
    RetainedIs(Perform(d, plan, n), l.all + [plan.entry], kept);
    UnlinkableExact(Retained(d, l.all) + [plan.entry], Names(kept), d.files[NameOf(plan.entry) := plan.entry]);
  }

  /** The directory holds the files of its retained entries and no other. */
  ghost predicate Tidy(d: Directory, all: seq<Entry>) {
    forall name: FileName :: name in d.files <==> name in Names(Retained(d, all))
  }

  lemma RetentionIsPositive(h: Hashes, d: Directory, l: Ledger, source: Source, kind: string, retention: int)
    requires PlanAppend(h, d, source, kind, retention).Ok?
    ensures retention >= 1
  {
  }

  lemma KeptIsSublist(combined: seq<Entry>, retention: int)
    requires combined != [] && retention >= 1
    ensures Names(KeepLast(combined, retention)) <= Names(combined)
  {
    hide NameOf;
    forall e | e in KeepLast(combined, retention) ensures e in combined {
    }
  }

  /** The files of retained entries are there. */
  lemma RetainedAreFiles(h: Hashes, d: Directory, l: Ledger)
    requires Holds(h, d, l)
    ensures Names(Retained(d, l.all)) <= d.files.Keys
  {
    hide Chain, ManifestOf, NameOf, Retained;
  }

  /** A file of no retained entry: nothing in the history refers to it. */
  predicate Leftover(d: Directory, all: seq<Entry>, name: FileName) {
    name in d.files && name !in Names(Retained(d, all))
  }

  /** The files that an append leaves for good when it dies after n file operations. */
  function LeftBehind(plan: Plan, n: nat): set<FileName> {
    if n == 0 then {}
    else if n == 1 then {NameOf(plan.entry)}
    else set name | name in plan.pruned && name !in FirstOf(plan.pruned, n - 2)
  }

  lemma NamesOfMore(es: seq<Entry>, e: Entry)
    ensures Names(es + [e]) == Names(es) + {NameOf(e)}
  {
    hide NameOf;
  }

  /** One append adds to the leftovers exactly what its death leaves behind. */
  lemma StepLeaves(
    h: Hashes, d: Directory, l: Ledger, source: Source, kind: string, retention: int, n: nat, name: FileName)
    requires Holds(h, d, l) && PlanAppend(h, d, source, kind, retention).Ok?
    ensures
      var plan := PlanAppend(h, d, source, kind, retention).value;
      var after, all := Perform(d, plan, n), Commit(l, plan, retention, n).all;
      && (Leftover(after, all, name) <==> Leftover(d, l.all, name) || name in LeftBehind(plan, n))
      && (Leftover(d, l.all, name) ==> name in after.files && after.files[name] == d.files[name])
  {
    hide PlanAppend, NameOf, Holds, KeepLast, Retained, Names;
    var plan := PlanAppend(h, d, source, kind, retention).value;
    var combined := Retained(d, l.all) + [plan.entry];
    RetainedAreFiles(h, d, l);
    AfterCommit(h, d, l, source, kind, retention, 2, name);
    if n >= 2 {
      AfterCommit(h, d, l, source, kind, retention, n, name);
      RetentionIsPositive(h, d, l, source, kind, retention);
      KeptIsSublist(combined, retention);
      NamesOfMore(Retained(d, l.all), plan.entry);
      FirstOfSubset(plan.pruned, n - 2);
    } else {
      RetainedByManifest(d, Perform(d, plan, n), l.all);
    }
  }

  lemma OneAttemptHolds(h: Hashes, d: Directory, l: Ledger, a: Attempt)
    requires Holds(h, d, l)
    ensures Holds(h, Step(h, d, a), StepLedger(h, d, l, a))
  {
    hide Holds, PlanAppend, Perform;
    var planned := PlanAppend(h, d, a.source, a.kind, a.retention);
    if planned.Ok? {
      PerformHolds(h, d, l, a.source, a.kind, a.retention, a.operations);
    }
  }

  /** All that the deaths in a run leave behind. */
  function Litter(h: Hashes, d: Directory, attempts: seq<Attempt>): set<FileName>
    decreases |attempts|
  {
    if attempts == [] then {}
    else
      var a := attempts[0];
      (match PlanAppend(h, d, a.source, a.kind, a.retention)
       case Err(_) => {}
       case Ok(plan) => LeftBehind(plan, a.operations))
      + Litter(h, Step(h, d, a), attempts[1..])
  }

  /** After any run the leftovers are those from before, unchanged, and what its deaths left behind, and no others. */
  lemma {:induction false} LeftoversExactly(h: Hashes, d: Directory, l: Ledger, attempts: seq<Attempt>, name: FileName)
    requires Holds(h, d, l)
    ensures
      var after, all := Run(h, d, attempts), RunLedger(h, d, l, attempts).all;
      && (Leftover(after, all, name) <==> Leftover(d, l.all, name) || name in Litter(h, d, attempts))
      && (Leftover(d, l.all, name) ==> name in d.files && name in after.files && after.files[name] == d.files[name])
    decreases |attempts|
  {
    hide Holds, PlanAppend, Perform, LeftBehind, Names, Retained;
    if attempts != [] {
      var a := attempts[0];
      var planned := PlanAppend(h, d, a.source, a.kind, a.retention);
      OneAttemptHolds(h, d, l, a);
      if planned.Ok? {
        StepLeaves(h, d, l, a.source, a.kind, a.retention, a.operations, name);
      }
      LeftoversExactly(h, Step(h, d, a), StepLedger(h, d, l, a), attempts[1..], name);
    }
  }

  /** An attempt that changes nothing, or lives to its last file operation. */
  predicate Harmless(h: Hashes, d: Directory, a: Attempt) {
    var planned := PlanAppend(h, d, a.source, a.kind, a.retention);
    planned.Ok? ==> a.operations == 0 || a.operations >= planned.value.Operations()
  }

  predicate AllHarmless(h: Hashes, d: Directory, attempts: seq<Attempt>)
    decreases |attempts|
  {
    attempts == [] || (Harmless(h, d, attempts[0]) && AllHarmless(h, Step(h, d, attempts[0]), attempts[1..]))
  }

  lemma LeftBehindExactly(
    h: Hashes, d: Directory, l: Ledger, source: Source, kind: string, retention: int, n: nat)
    requires Holds(h, d, l) && PlanAppend(h, d, source, kind, retention).Ok?
    ensures
      var plan := PlanAppend(h, d, source, kind, retention).value;
      LeftBehind(plan, n) == {} <==> n == 0 || n >= plan.Operations()
  {
    hide PlanAppend, NameOf, Holds, KeepLast, Retained, Names, Unlinkable;
    var plan := PlanAppend(h, d, source, kind, retention).value;
    AcceptedExactly(h, d, l, source, kind, retention);
    var combined := Retained(d, l.all) + [plan.entry];
    UnlinkableExact(combined, Names(KeepLast(combined, retention)), d.files[NameOf(plan.entry) := plan.entry]);
    if 2 <= n < plan.Operations() {
      var name := plan.pruned[n - 2];
      assert name !in FirstOf(plan.pruned, n - 2);
      assert name in LeftBehind(plan, n);
    }
  }

  lemma {:induction false} LitterExactly(h: Hashes, d: Directory, l: Ledger, attempts: seq<Attempt>)
    requires Holds(h, d, l)
    ensures Litter(h, d, attempts) == {} <==> AllHarmless(h, d, attempts)
    decreases |attempts|
  {
    hide Holds, PlanAppend, Perform, LeftBehind;
    if attempts != [] {
      var a := attempts[0];
      OneAttemptHolds(h, d, l, a);
      if PlanAppend(h, d, a.source, a.kind, a.retention).Ok? {
        LeftBehindExactly(h, d, l, a.source, a.kind, a.retention, a.operations);
      }
      LitterExactly(h, Step(h, d, a), StepLedger(h, d, l, a), attempts[1..]);
    }
  }

  lemma TidyHasNoLeftovers(h: Hashes, d: Directory, l: Ledger)
    requires Holds(h, d, l)
    ensures Tidy(d, l.all) <==> forall name: FileName :: !Leftover(d, l.all, name)
  {
    hide Holds, Names, Retained;
    RetainedAreFiles(h, d, l);
    if forall name: FileName :: !Leftover(d, l.all, name) {
      forall name: FileName ensures name in d.files <==> name in Names(Retained(d, l.all)) {
        assert !Leftover(d, l.all, name);
      }
    }
  }

  /** Among tidy directories, a run leaves a tidy one exactly when none of its appends dies midway. */
  lemma TidyExactly(h: Hashes, d: Directory, l: Ledger, attempts: seq<Attempt>)
    requires Holds(h, d, l) && Tidy(d, l.all)
    ensures Tidy(Run(h, d, attempts), RunLedger(h, d, l, attempts).all) <==> AllHarmless(h, d, attempts)
  {
    hide Holds, Run, RunLedger, Tidy, Leftover, Litter, AllHarmless;
    var after, ledger := Run(h, d, attempts), RunLedger(h, d, l, attempts);
    RunHolds(h, d, l, attempts);
    TidyHasNoLeftovers(h, d, l);
    LitterExactly(h, d, l, attempts);
    forall name: FileName ensures Leftover(after, ledger.all, name) <==> name in Litter(h, d, attempts) {
      LeftoversExactly(h, d, l, attempts, name);
    }
    TidyHasNoLeftovers(h, after, ledger);
  }

  lemma EmptyIsTidy()
    ensures Tidy(EMPTY, NOTHING.all)
  {
    assert Names([]) == {};
  }

  /**
   After any run from an empty directory the files are those of the entries it validates to and, apart from them,
   exactly what the deaths of the run left behind; that is nothing if and only if no append died midway.
   */
  lemma FilesAfterRunExactly(h: Hashes, attempts: seq<Attempt>)
    ensures
      var d := Run(h, EMPTY, attempts);
      && Validate(h, d).Ok?
      && d.files.Keys == Names(Validate(h, d).value.1) + Litter(h, EMPTY, attempts)
      && Names(Validate(h, d).value.1) * Litter(h, EMPTY, attempts) == {}
      && (Litter(h, EMPTY, attempts) == {} <==> AllHarmless(h, EMPTY, attempts))
  {
    hide Validate, Run, RunLedger, Holds, Names, AllHarmless, Litter, LoadedManifest, Retained;
    var d, l := Run(h, EMPTY, attempts), RunLedger(h, EMPTY, NOTHING, attempts);
    EmptyHoldsNothing(h);
    RunHolds(h, EMPTY, NOTHING, attempts);
    HeldIsDescribed(h, d, l);
    RetainedAreFiles(h, d, l);
    LitterExactly(h, EMPTY, NOTHING, attempts);
    forall name: FileName ensures Leftover(d, l.all, name) <==> name in Litter(h, EMPTY, attempts) {
      LeftoversExactly(h, EMPTY, NOTHING, attempts, name);
    }
  }

  /**
   A death midway leaves its files for good: whatever is appended later, each is still there unchanged, and no entry the
   directory validates to is stored in it.
   */
  lemma DeathMidwayIsForever(
    h: Hashes, d: Directory, l: Ledger, source: Source, kind: string, retention: int, n: nat, later: seq<Attempt>,
    name: FileName)
    requires Holds(h, d, l) && PlanAppend(h, d, source, kind, retention).Ok?
    requires name in LeftBehind(PlanAppend(h, d, source, kind, retention).value, n)
    ensures
      var died := Perform(d, PlanAppend(h, d, source, kind, retention).value, n);
      var ended := Run(h, died, later);
      && name in died.files && name in ended.files && ended.files[name] == died.files[name]
      && Validate(h, ended).Ok? && name !in Names(Validate(h, ended).value.1)
  {
    hide Holds, PlanAppend, Perform, LeftBehind, Validate, Run, RunLedger, Names, Retained, Litter, LoadedManifest;
    var plan := PlanAppend(h, d, source, kind, retention).value;
    var died, ledger := Perform(d, plan, n), Commit(l, plan, retention, n);
    PerformHolds(h, d, l, source, kind, retention, n);
    StepLeaves(h, d, l, source, kind, retention, n, name);
    LeftoversExactly(h, died, ledger, later, name);
    RunHolds(h, died, ledger, later);
    HeldIsDescribed(h, Run(h, died, later), RunLedger(h, died, ledger, later));
  }

  // ---- Retrying later ----

  /** The name of the file that the next entry would have. */
  function NextName(all: seq<Entry>, source: Source, kind: string): FileName {
    FileName(|all| + 1, source.generatedAt, kind, Prefix(source.artifactHash))
  }

  lemma NextEntryName(h: Hashes, all: seq<Entry>, source: Source, kind: string)
    ensures NameOf(NextEntry(h, all, source, kind)) == NextName(all, source, kind)
  {
    hide Prefix, EntryHash, EndOf;
  }

  /** Only a file in its way refuses a retriable source. */
  lemma RefusedByFile(h: Hashes, d: Directory, l: Ledger, source: Source, kind: string, retention: int)
    requires Holds(h, d, l) && Retriable(h, l.all, source, kind, retention)
    ensures
      var planned := PlanAppend(h, d, source, kind, retention);
      && (planned.Ok? <==> NextName(l.all, source, kind) !in d.files)
      && (planned.Err? ==> planned == Err(EntryFilenameCollision))
  {
    hide IsSound, SourceFault, NameOf, ManifestOf, Validate, Unlinkable, LoadedManifest, Retained, Holds, IsSigned,
      EndsFit, SourceHashes, NewEntry, EndOf, Names, Prefix;
    AcceptedExactly(h, d, l, source, kind, retention);
    SoundExactly(h, source, kind);
    NextEntryName(h, l.all, source, kind);
    HeldIsDescribed(h, d, l);
    HeldManifest(h, d, l);
    RetainedEnds(d, l.all);
  }

  lemma SequenceOf(h: Hashes, all: seq<Entry>, i: nat)
    requires Chain(h, all) && i < |all|
    ensures all[i].sequence == i + 1
  {
    hide IsSound, EntryHash, SourceHashes, EndOf;
    assert Linked(h, all, i);
  }

  lemma RetainedSequences(h: Hashes, d: Directory, l: Ledger)
    requires Holds(h, d, l)
    ensures forall name :: name in Names(Retained(d, l.all)) ==> name.sequence <= |l.all|
  {
    hide Holds, Retained, Linked;
    HeldParts(h, d, l);
    forall e | e in Retained(d, l.all) ensures e.sequence <= |l.all| {
      var i :| 0 <= i < |Retained(d, l.all)| && Retained(d, l.all)[i] == e;
      SequenceOf(h, l.all, |l.all| - |Retained(d, l.all)| + i);
    }
  }

  /** A file left behind bears a number already committed, unless the death came right after writing the entry. */
  lemma LeftBehindNumbers(
    h: Hashes, d: Directory, l: Ledger, source: Source, kind: string, retention: int, n: nat, name: FileName)
    requires Holds(h, d, l) && PlanAppend(h, d, source, kind, retention).Ok?
    requires name in LeftBehind(PlanAppend(h, d, source, kind, retention).value, n)
    ensures n == 1 ==> name == NextName(l.all, source, kind)
    ensures n >= 2 ==> name.sequence <= |l.all| + 1
  {
    hide PlanAppend, NameOf, Holds, KeepLast, Retained, Names, Unlinkable, NewEntry, Prefix;
    var plan := PlanAppend(h, d, source, kind, retention).value;
    AcceptedExactly(h, d, l, source, kind, retention);
    NextEntryName(h, l.all, source, kind);
    if n >= 2 {
      var combined := Retained(d, l.all) + [plan.entry];
      UnlinkableExact(combined, Names(KeepLast(combined, retention)), d.files[NameOf(plan.entry) := plan.entry]);
      NamesOfMore(Retained(d, l.all), plan.entry);
      RetainedSequences(h, d, l);
    }
  }

  /** Entries of these two sources, of one number, have one file name. */
  predicate SameName(a: Source, aKind: string, b: Source, bKind: string) {
    aKind == bKind && a.generatedAt == b.generatedAt && Prefix(a.artifactHash) == Prefix(b.artifactHash)
  }

  /**
   Some append of a source of the same name, the source itself for one, died right after writing its entry, and nothing
   has been committed since.
   */
  predicate DiedWriting(h: Hashes, d: Directory, l: Ledger, attempts: seq<Attempt>, source: Source, kind: string)
    decreases |attempts|
  {
    attempts != [] &&
    (var a := attempts[0];
     var next, ledger := Step(h, d, a), StepLedger(h, d, l, a);
     || (&& PlanAppend(h, d, a.source, a.kind, a.retention).Ok? && a.operations == 1
         && SameName(a.source, a.kind, source, kind)
         && RunLedger(h, next, ledger, attempts[1..]).all == l.all)
     || DiedWriting(h, next, ledger, attempts[1..], source, kind))
  }

  lemma NothingLeftAtStart(plan: Plan)
    ensures LeftBehind(plan, 0) == {}
  {
  }

  lemma LeftAfterWriting(h: Hashes, d: Directory, l: Ledger, source: Source, kind: string, retention: int)
    requires Holds(h, d, l) && PlanAppend(h, d, source, kind, retention).Ok?
    ensures NextName(l.all, source, kind) in LeftBehind(PlanAppend(h, d, source, kind, retention).value, 1)
  {
    hide PlanAppend, NameOf, Holds, NewEntry, Prefix;
    AcceptedExactly(h, d, l, source, kind, retention);
    NextEntryName(h, l.all, source, kind);
  }

  lemma {:induction false} LitterAhead(
    h: Hashes, d: Directory, l: Ledger, attempts: seq<Attempt>, source: Source, kind: string)
    requires Holds(h, d, l)
    ensures NextName(RunLedger(h, d, l, attempts).all, source, kind) in Litter(h, d, attempts)
       <==> DiedWriting(h, d, l, attempts, source, kind)
    decreases |attempts|
  {
    hide Holds, PlanAppend, Perform, LeftBehind, Prefix;
    if attempts != [] {
      var a := attempts[0];
      var next, ledger := Step(h, d, a), StepLedger(h, d, l, a);
      var name := NextName(RunLedger(h, d, l, attempts).all, source, kind);
      OneAttemptHolds(h, d, l, a);
      RunHolds(h, next, ledger, attempts[1..]);
      LitterAhead(h, next, ledger, attempts[1..], source, kind);
      if PlanAppend(h, d, a.source, a.kind, a.retention).Ok? {
        var plan := PlanAppend(h, d, a.source, a.kind, a.retention).value;
        if name in LeftBehind(plan, a.operations) {
          LeftBehindNumbers(h, d, l, a.source, a.kind, a.retention, a.operations, name);
          NothingLeftAtStart(plan);
        }
        if a.operations == 1 {
          LeftAfterWriting(h, d, l, a.source, a.kind, a.retention);
        }
      }
    }
  }

  /**
   After any run from a tidy directory an otherwise acceptable source is refused if and only if an append of the same
   name died right after writing its entry and nothing has been committed since.
   */
  lemma RetryExactly(
    h: Hashes, d: Directory, l: Ledger, attempts: seq<Attempt>, source: Source, kind: string, retention: int)
    requires Holds(h, d, l) && Tidy(d, l.all)
    requires Retriable(h, RunLedger(h, d, l, attempts).all, source, kind, retention)
    ensures
      var retry := PlanAppend(h, Run(h, d, attempts), source, kind, retention);
      && (retry.Err? <==> DiedWriting(h, d, l, attempts, source, kind))
      && (retry.Err? ==> retry == Err(EntryFilenameCollision))
  {
    hide Holds, PlanAppend, Run, RunLedger, Names, Retained, Litter, DiedWriting, Retriable, Prefix;
    var after, ledger := Run(h, d, attempts), RunLedger(h, d, l, attempts);
    var name := NextName(ledger.all, source, kind);
    RunHolds(h, d, l, attempts);
    RefusedByFile(h, after, ledger, source, kind, retention);
    RetainedSequences(h, after, ledger);
    LeftoversExactly(h, d, l, attempts, name);
    LitterAhead(h, d, l, attempts, source, kind);
  }

  /** Until something is committed, every retry of a source that died right after writing its entry is refused. */
  lemma RetryCollidesUntilCommit(
    h: Hashes, d: Directory, l: Ledger, source: Source, kind: string, retention: int, later: seq<Attempt>,
    retryRetention: int)
    requires Holds(h, d, l) && PlanAppend(h, d, source, kind, retention).Ok? && retryRetention >= 1
    requires
      var died := Perform(d, PlanAppend(h, d, source, kind, retention).value, 1);
      RunLedger(h, died, l, later).all == l.all
    ensures
      var died := Perform(d, PlanAppend(h, d, source, kind, retention).value, 1);
      PlanAppend(h, Run(h, died, later), source, kind, retryRetention) == Err(EntryFilenameCollision)
  {
    hide Holds, PlanAppend, Perform, Run, RunLedger, Names, Retained, Litter, LeftBehind, NewEntry, NameOf, Prefix;
    var plan := PlanAppend(h, d, source, kind, retention).value;
    var died, name := Perform(d, plan, 1), NextName(l.all, source, kind);
    AcceptedExactly(h, d, l, source, kind, retention);
    LeftAfterWriting(h, d, l, source, kind, retention);
    PerformHolds(h, d, l, source, kind, retention, 1);
    StepLeaves(h, d, l, source, kind, retention, 1, name);
    LeftoversExactly(h, died, l, later, name);
    RunHolds(h, died, l, later);
    RefusedByFile(h, Run(h, died, later), RunLedger(h, died, l, later), source, kind, retryRetention);
  }

  lemma TwoSteps(h: Hashes, d: Directory, l: Ledger, a: Attempt, b: Attempt)
    ensures
      var d1, l1 := Step(h, d, a), StepLedger(h, d, l, a);
      && Run(h, d, [a, b]) == Step(h, d1, b)
      && RunLedger(h, d, l, [a, b]) == StepLedger(h, d1, l1, b)
  {
    hide Step, StepLedger;
    assert [a, b][1..] == [b] && [b][1..] == [];
    var d1, l1 := Step(h, d, a), StepLedger(h, d, l, a);
    assert Run(h, d1, [b]) == Run(h, Step(h, d1, b), []);
    assert RunLedger(h, d1, l1, [b]) == RunLedger(h, Step(h, d1, b), StepLedger(h, d1, l1, b), []);
  }

  lemma CommittedSince(h: Hashes, d: Directory, l: Ledger, a: Attempt, b: Attempt, source: Source, kind: string)
    requires RunLedger(h, d, l, [a, b]).all != l.all && b.operations != 1
    ensures !DiedWriting(h, d, l, [a, b], source, kind)
  {
    hide Step, StepLedger, PlanAppend, SameName;
    assert [a, b][1..] == [b] && [b][1..] == [];
    var d1, l1 := Step(h, d, a), StepLedger(h, d, l, a);
    assert RunLedger(h, d, l, [a, b]) == RunLedger(h, d1, l1, [b]);
    assert !DiedWriting(h, Step(h, d1, b), StepLedger(h, d1, l1, b), [], source, kind);
    assert !DiedWriting(h, d1, l1, [b], source, kind);
  }

  lemma CommittedStep(h: Hashes, d: Directory, l: Ledger, a: Attempt)
    requires Holds(h, d, l) && PlanAppend(h, d, a.source, a.kind, a.retention).Ok?
    ensures a.operations < 2 ==> StepLedger(h, d, l, a) == l
    ensures a.operations >= 2 ==> StepLedger(h, d, l, a).all == l.all + [NextEntry(h, l.all, a.source, a.kind)]
  {
    hide Holds, PlanAppend, NewEntry, NameOf, IsSound, SourceHashes;
    AcceptedExactly(h, d, l, a.source, a.kind, a.retention);
  }

  /** Once an earlier source has been committed, a retry's entry has another number than the orphaned file. */
  lemma AnotherCommitFreesRetry(
    h: Hashes, d: Directory, l: Ledger, a: Attempt, other: Attempt, retryRetention: int)
    requires Holds(h, d, l) && Tidy(d, l.all)
    requires PlanAppend(h, d, a.source, a.kind, a.retention).Ok? && a.operations == 1
    requires PlanAppend(h, Step(h, d, a), other.source, other.kind, other.retention).Ok? && other.operations >= 2
    requires other.source.generatedAt < a.source.generatedAt && other.source.artifactHash != a.source.artifactHash
    requires retryRetention >= 1
    ensures PlanAppend(h, Run(h, d, [a, other]), a.source, a.kind, retryRetention).Ok?
  {
    hide Holds, PlanAppend, Tidy, NameOf, IsSound, SourceHashes, EndOf, EntryHash, DiedWriting, Run,
      RunLedger, Step, StepLedger;
    var died := Step(h, d, a);
    AcceptedExactly(h, d, l, a.source, a.kind, a.retention);
    OneAttemptHolds(h, d, l, a);
    CommittedStep(h, d, l, a);
    CommittedStep(h, died, l, other);
    TwoSteps(h, d, l, a, other);
    CommittedSince(h, d, l, a, other, a.source, a.kind);
    SourceHashesAppend(l.all, NextEntry(h, l.all, other.source, other.kind));
    RetryExactly(h, d, l, [a, other], a.source, a.kind, retryRetention);
  }

  // ---- Two runs that show it ----

  /** Stand-ins for hashes, under which a source is sound when its hash is its content. */
  const PLAIN := Hashes((s: Source) => s.content, (e: Entry) => e.sourceArtifactHash, (m: Manifest) => "")

  function PlainSource(generatedAt: int, content: string): Source {
    Source("phase4aa.settlement-closure-gate.v1", generatedAt, false, false, content, content)
  }

  lemma PlainIsSound(generatedAt: int, content: string)
    ensures IsSound(PLAIN, PlainSource(generatedAt, content), GATE_KIND)
  {
  }

  lemma PlainFields(generatedAt: int, content: string)
    requires |content| <= 16
    ensures
      var source := PlainSource(generatedAt, content);
      source.generatedAt == generatedAt && source.artifactHash == content && Prefix(content) == content
  {
  }

  /** An append of a new, later plain source with no file in its way is accepted. */
  lemma PlainIsAccepted(d: Directory, l: Ledger, generatedAt: int, content: string)
    requires Holds(PLAIN, d, l) && content !in SourceHashes(l.all)
    requires l.all != [] ==> generatedAt > l.all[|l.all| - 1].generatedAt
    ensures
      var source := PlainSource(generatedAt, content);
      && Retriable(PLAIN, l.all, source, GATE_KIND, 1)
      && (NextName(l.all, source, GATE_KIND) !in d.files ==>
            var planned := PlanAppend(PLAIN, d, source, GATE_KIND, 1);
            planned.Ok? && planned.value.entry == NextEntry(PLAIN, l.all, source, GATE_KIND))
  {
    hide Holds, PlanAppend, NewEntry, NameOf, IsSound, Prefix;
    PlainIsSound(generatedAt, content);
    RefusedByFile(PLAIN, d, l, PlainSource(generatedAt, content), GATE_KIND, 1);
    AcceptedExactly(PLAIN, d, l, PlainSource(generatedAt, content), GATE_KIND, 1);
  }

  lemma EmptyRetainsNothing()
    ensures Retained(EMPTY, []) == []
  {
  }

  lemma NameOfOnly(e: Entry)
    ensures Names([e]) == {NameOf(e)}
  {
    hide NameOf;
  }

  /** The first append to an empty directory, once committed. */
  lemma FirstCommit(generatedAt: int, content: string) returns (e: Entry)
    requires |content| <= 16
    ensures
      var a := Attempt(PlainSource(generatedAt, content), GATE_KIND, 1, 2);
      var d, l := Step(PLAIN, EMPTY, a), StepLedger(PLAIN, EMPTY, NOTHING, a);
      && Holds(PLAIN, d, l) && l.all == [e] && Retained(d, l.all) == [e]
      && e.generatedAt == generatedAt && e.sourceArtifactHash == content
      && NameOf(e) == FileName(1, generatedAt, GATE_KIND, content) && d.files.Keys == {NameOf(e)}
  {
    hide Holds, PlanAppend, NameOf, IsSound, Names, EntryHash, EndOf, Retained;
    var a := Attempt(PlainSource(generatedAt, content), GATE_KIND, 1, 2);
    EmptyHoldsNothing(PLAIN);
    PlainIsAccepted(EMPTY, NOTHING, generatedAt, content);
    OneAttemptHolds(PLAIN, EMPTY, NOTHING, a);
    e := NextEntry(PLAIN, [], a.source, GATE_KIND);
    NextEntryName(PLAIN, [], a.source, GATE_KIND);
    EmptyRetainsNothing();
    assert KeepLast([] + [e], 1) == [e];
    NameOfOnly(e);
    AfterCommit(PLAIN, EMPTY, NOTHING, a.source, GATE_KIND, 1, 2, NameOf(e));
    forall name ensures name in Step(PLAIN, EMPTY, a).files <==> name == NameOf(e) {
      AfterCommit(PLAIN, EMPTY, NOTHING, a.source, GATE_KIND, 1, 2, name);
    }
  }

  /** At retention one an append that dies after two operations leaves the one retained entry's file. */
  lemma RetentionOneLeaves(h: Hashes, d: Directory, l: Ledger, source: Source, kind: string, e: Entry)
    requires Holds(h, d, l) && PlanAppend(h, d, source, kind, 1).Ok? && Retained(d, l.all) == [e]
    ensures NameOf(e) in LeftBehind(PlanAppend(h, d, source, kind, 1).value, 2)
  {
    hide Holds, PlanAppend, NameOf, Retained;
    var plan := PlanAppend(h, d, source, kind, 1).value;
    RetainedAreFiles(h, d, l);
    AfterCommit(h, d, l, source, kind, 1, 2, NameOf(e));
    assert e in [e] + [plan.entry];
    assert KeepLast([e] + [plan.entry], 1) == [plan.entry];
  }

  /** Two appends at retention one, the second dying after two operations, leave the first entry's file for good. */
  lemma PruningDeathLeavesFile()
    ensures
      var first := Attempt(PlainSource(1, "first"), GATE_KIND, 1, 2);
      var second := Attempt(PlainSource(2, "second"), GATE_KIND, 1, 2);
      var d := Run(PLAIN, EMPTY, [first, second]);
      && Validate(PLAIN, d).Ok?
      && FileName(1, 1, GATE_KIND, "first") in d.files
      && FileName(1, 1, GATE_KIND, "first") !in Names(Validate(PLAIN, d).value.1)
  {
    hide Holds, Validate, PlanAppend, NextEntry, NameOf, IsSound, LeftBehind, Perform, Names, Retained, StepLedger,
      PlainSource;
    var first := Attempt(PlainSource(1, "first"), GATE_KIND, 1, 2);
    var second := Attempt(PlainSource(2, "second"), GATE_KIND, 1, 2);
    var e := FirstCommit(1, "first");
    var d, l := Step(PLAIN, EMPTY, first), StepLedger(PLAIN, EMPTY, NOTHING, first);
    TwoSteps(PLAIN, EMPTY, NOTHING, first, second);
    PlainFields(2, "second");
    PlainIsAccepted(d, l, 2, "second");
    RetentionOneLeaves(PLAIN, d, l, second.source, GATE_KIND, e);
    DeathMidwayIsForever(PLAIN, d, l, second.source, GATE_KIND, 1, 2, [], NameOf(e));
  }

  /**
   An append that died right after writing its entry, an earlier source committed after it, and a retry that succeeds:
   the orphaned file stays, but the retry's entry has another number.
   */
  lemma RetrySucceedsElsewhere()
    ensures
      var late := Attempt(PlainSource(2, "late"), GATE_KIND, 1, 1);
      var early := Attempt(PlainSource(1, "early"), GATE_KIND, 1, 2);
      && PlanAppend(PLAIN, Run(PLAIN, EMPTY, [late]), late.source, GATE_KIND, 1) == Err(EntryFilenameCollision)
      && PlanAppend(PLAIN, Run(PLAIN, EMPTY, [late, early]), late.source, GATE_KIND, 1).Ok?
  {
    hide Holds, PlanAppend, NameOf, IsSound, Retained, PlainSource;
    var late := Attempt(PlainSource(2, "late"), GATE_KIND, 1, 1);
    var early := Attempt(PlainSource(1, "early"), GATE_KIND, 1, 2);
    EmptyHoldsNothing(PLAIN);
    EmptyIsTidy();
    PlainFields(2, "late");
    PlainFields(1, "early");
    PlainIsAccepted(EMPTY, NOTHING, 2, "late");
    OneAttemptHolds(PLAIN, EMPTY, NOTHING, late);
    NextEntryName(PLAIN, [], late.source, GATE_KIND);
    var died := Step(PLAIN, EMPTY, late);
    assert died.files.Keys == {NextName([], late.source, GATE_KIND)};
    PlainIsAccepted(died, NOTHING, 1, "early");
    RetryAfterDeath(PLAIN, EMPTY, NOTHING, late.source, GATE_KIND, 1, 1, 1);
    assert [late][1..] == [];
    AnotherCommitFreesRetry(PLAIN, EMPTY, NOTHING, late, early, 1);
  }
}
