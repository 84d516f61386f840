/**
 Appending to the artifact history (`append` in scripts/local/phase4ac_artifact_history.py): the file
 operations of one append, and every run of appends, completed or cut short after any file operation.
 */
module HistoryRuns {
  import opened Support
  import opened ArtifactHistory

  /** What an accepted append is about to do: write the entry, replace the manifest, unlink old entries. */
  datatype Plan = Plan(entry: Entry, manifest: Manifest, pruned: seq<FileName>) {
    function Operations(): nat { 2 + |pruned| }
  }

  function NewEntry(h: Hashes, sequence: int, kind: string, source: Source, previousHash: Digest): Entry {
    var unsigned := Entry(
      ENTRY_SCHEMA, sequence, kind, source.generatedAt, source.artifactHash, previousHash, source, "");
    unsigned.(entryHash := EntryHash(h, unsigned))
  }

  function KeepLast(es: seq<Entry>, n: int): (kept: seq<Entry>)
    requires es != [] && n >= 1
    ensures kept != [] && |kept| == if |es| <= n then |es| else n
    ensures kept == es[|es| - |kept|..]
  {
    if |es| <= n then es[0..] else es[|es| - n..]
  }

  function Names(es: seq<Entry>): set<FileName> { set e | e in es :: NameOf(e) }

  /** The file names the pruning loop unlinks, in its order. */
  function Unlinkable(combined: seq<Entry>, kept: set<FileName>, files: map<FileName, Entry>): seq<FileName> {
    if combined == [] then []
    else
      var name := NameOf(combined[0]);
      if name !in kept && name in files then [name] + Unlinkable(combined[1..], kept, files - {name})
      else Unlinkable(combined[1..], kept, files)
  }

  function Without(files: map<FileName, Entry>, names: seq<FileName>): map<FileName, Entry> {
    files - (set name | name in names)
  }

  function FirstOf(names: seq<FileName>, n: nat): seq<FileName> {
    if n >= |names| then names else names[..n]
  }

  function PlanAppend(h: Hashes, d: Directory, source: Source, kind: string, retention: int): Result<Plan, Error> {
    if retention < 1 then Err(RetentionInvalid)
    else if SourceFault(h, source, kind).Some? then Err(SourceFault(h, source, kind).value)
    else match Validate(h, d)
      case Err(error) => Err(error)
      case Ok((m, es)) =>
        if source.artifactHash in m.seen then Err(DuplicateSnapshot)
        else if es != [] && source.generatedAt <= es[|es| - 1].generatedAt then Err(SourceTimestampOutOfOrder)
        else
          var e := NewEntry(h, m.totalEntries + 1, kind, source, PreviousHash(m.head, es));
          if NameOf(e) in d.files then Err(EntryFilenameCollision)
          else
            var retained := KeepLast(es + [e], retention);
            Ok(Plan(e,
              ManifestOf(h, m.totalEntries + 1, m.seen + [source.artifactHash], retained),
              Unlinkable(es + [e], Names(retained), d.files[NameOf(e) := e])))
  }

  /** The directory after the first n file operations of a plan. */
  function Perform(d: Directory, plan: Plan, n: nat): Directory {
    var written := d.files[NameOf(plan.entry) := plan.entry];
    if n == 0 then d
    else if n == 1 then Directory(d.manifest, written)
    else Directory(Some(plan.manifest), Without(written, FirstOf(plan.pruned, n - 2)))
  }

  // ---- The directory as the program changes it ----

  datatype Outcome = Appended(manifest: Manifest) | Refused(error: Error) | Crashed

  class HistoryDirectory {
    const h: Hashes
    var manifest: Option<Manifest>
    var files: map<FileName, Entry>

    function State(): Directory
      reads this
    {
      Directory(manifest, files)
    }

    constructor (h: Hashes)
      ensures this.h == h && State() == EMPTY
    {
      this.h := h;
      manifest, files := None, map[];
    }

    method ValidateHistory() returns (r: Result<(Manifest, seq<Entry>), Error>)
      ensures r == Validate(h, State())
    {
      hide CheckReference;
      var m := LoadedManifest(h, State());
      var fault := ManifestFault(h, State());
      if fault.Some? {
        return Err(fault.value);
      }
      var entries: seq<Entry> := [];
      var index := 0;
      assert m.entries[0..] == m.entries;
      while index < |m.entries|
        invariant 0 <= index <= |m.entries|
        invariant CheckReferences(h, files, m, m.entries[index..], entries)
               == CheckReferences(h, files, m, m.entries, [])
      {
        assert m.entries[index..][0] == m.entries[index] && m.entries[index..][1..] == m.entries[index + 1..];
        var checked := CheckReference(h, files, m, m.entries[index], entries);
        if checked.Err? {
          return Err(checked.error);
        }
        entries := entries + [checked.value];
        index := index + 1;
      }
      var ends := EndsFault(m, entries);
      r := if ends.Some? then Err(ends.value) else Ok((m, entries));
    }

    /** Unlinks the entries that are not kept; the process dies after the given number of unlinks, if it needs more. */
    method Prune(combined: seq<Entry>, kept: set<FileName>, budget: nat) returns (finished: bool)
      modifies this`files
      ensures
        var names := Unlinkable(combined, kept, old(files));
        files == Without(old(files), FirstOf(names, budget)) && finished == (|names| <= budget)
    {
      hide NameOf;
      ghost var names := Unlinkable(combined, kept, files);
      ghost var unlinked: seq<FileName> := [];
      var left := budget;
      var index := 0;
      assert combined[0..] == combined;
      while index < |combined|
        invariant 0 <= index <= |combined|
        invariant 0 <= left && left + |unlinked| == budget
        invariant names == unlinked + Unlinkable(combined[index..], kept, files)
        invariant files == Without(old(files), unlinked)
      {
        var name := NameOf(combined[index]);
        assert combined[index..][0] == combined[index] && combined[index..][1..] == combined[index + 1..];
        if name !in kept && name in files {
          if left == 0 {
            assert FirstOf(names, budget) == unlinked;
            return false;
          }
          files := files - {name};
          unlinked := unlinked + [name];
          left := left - 1;
        }
        index := index + 1;
      }
      assert combined[index..] == [];
      finished := true;
    }

    /** Appends a source; the process dies after the given number of file operations, if it needs more. */
    method Append(source: Source, kind: string, retention: int, operations: nat) returns (outcome: Outcome)
      modifies this
      ensures match PlanAppend(h, old(State()), source, kind, retention)
        case Err(error) => outcome == Refused(error) && State() == old(State())
        case Ok(plan) =>
          && State() == Perform(old(State()), plan, operations)
          && outcome == if operations < plan.Operations() then Crashed else Appended(plan.manifest)
    {
      hide Validate, SourceFault, EntryHash, ManifestHash, NewEntry, ManifestOf, NameOf, Names, Unlinkable, Without;
      if retention < 1 {
        return Refused(RetentionInvalid);
      }
      var fault := SourceFault(h, source, kind);
      if fault.Some? {
        return Refused(fault.value);
      }
      var validated := ValidateHistory();
      if validated.Err? {
        return Refused(validated.error);
      }
      var (m, es) := validated.value;
      if source.artifactHash in m.seen {
        return Refused(DuplicateSnapshot);
      }
      if es != [] && source.generatedAt <= es[|es| - 1].generatedAt {
        return Refused(SourceTimestampOutOfOrder);
      }
      var e := NewEntry(h, m.totalEntries + 1, kind, source, PreviousHash(m.head, es));
      if NameOf(e) in files {
        return Refused(EntryFilenameCollision);
      }
      if operations == 0 {
        return Crashed;
      }
      files := files[NameOf(e) := e];
      var combined := es + [e];
      var retained := KeepLast(combined, retention);
      var newManifest := ManifestOf(h, m.totalEntries + 1, m.seen + [source.artifactHash], retained);
      if operations == 1 {
        return Crashed;
      }
      manifest := Some(newManifest);
      var finished := Prune(combined, Names(retained), operations - 2);
      outcome := if finished then Appended(newManifest) else Crashed;
    }
  }

  // ---- The committed history behind a directory ----

  ghost predicate Linked(h: Hashes, all: seq<Entry>, i: nat)
    requires i < |all|
  {
    var e := all[i];
    && e.schema == "phase4ac.artifact-history-entry.v1"
    && e.sequence == i + 1
    && e.entryHash == h.entry(e.(entryHash := ""))
    && e.previousEntryHash == (if i == 0 then ZERO_HASH else all[i - 1].entryHash)
    && (i > 0 ==> e.generatedAt > all[i - 1].generatedAt)
    && IsSound(h, e.source, e.kind)
    && e.source.artifactHash == e.sourceArtifactHash
    && forall j :: 0 <= j < i ==> all[j].sourceArtifactHash != e.sourceArtifactHash
  }

  /** Every entry committed so far, oldest first, whether or not it is still retained. */
  ghost predicate Chain(h: Hashes, all: seq<Entry>) { forall i :: 0 <= i < |all| ==> Linked(h, all, i) }

  /** The committed entries, and the retention the last commit asked for. */
  datatype Ledger = Ledger(all: seq<Entry>, retention: int)

  function Retained(d: Directory, all: seq<Entry>): seq<Entry> {
    if d.manifest.Some? && 0 <= d.manifest.value.retainedCount <= |all| then
      all[|all| - d.manifest.value.retainedCount..]
    else []
  }

  /** The directory holds the ledger: a manifest of the newest entries, and those entries' files. */
  ghost predicate Holds(h: Hashes, d: Directory, l: Ledger) {
    && Chain(h, l.all)
    && (l.all == [] ==> d.manifest.None?)
    && (l.all != [] ==>
      && d.manifest.Some?
      && 1 <= d.manifest.value.retainedCount <= |l.all|
      && d.manifest.value.retainedCount <= l.retention
      && d.manifest.value == ManifestOf(h, |l.all|, SourceHashes(l.all), Retained(d, l.all)))
    && forall e :: e in Retained(d, l.all) ==> NameOf(e) in d.files && d.files[NameOf(e)] == e
  }

  /** The hash of the newest entry, or zeros. */
  function EndOf(es: seq<Entry>): Digest { if es == [] then ZERO_HASH else es[|es| - 1].entryHash }

  lemma ChainSourcesDistinct(h: Hashes, all: seq<Entry>)
    requires Chain(h, all)
    ensures Distinct(SourceHashes(all))
  {
    hide IsSound;
    forall i, j | 0 <= i < j < |all|
      ensures SourceHashes(all)[i] != SourceHashes(all)[j]
    {
      assert Linked(h, all, j);
    }
  }

  lemma SignedIsSigned(h: Hashes, m: Manifest)
    ensures
      var signed := Signed(h, m);
      signed.manifestHash == ManifestHash(h, signed) && signed == m.(manifestHash := signed.manifestHash)
  {
    assert m.(manifestHash := ManifestHash(h, m)).(manifestHash := "") == m.(manifestHash := "");
  }

  lemma ManifestOfFields(h: Hashes, total: int, seen: seq<Digest>, retained: seq<Entry>)
    requires retained != []
    ensures
      var m, last := ManifestOf(h, total, seen, retained), retained[|retained| - 1];
      && m.schema == MANIFEST_SCHEMA && m.manifestHash == ManifestHash(h, m)
      && m.totalEntries == total && m.seen == seen && m.retainedCount == |retained|
      && m.entries == References(retained) && |m.entries| == |retained|
      && m.firstSequence == Some(retained[0].sequence) && m.lastSequence == Some(last.sequence)
      && m.anchor == retained[0].previousEntryHash && m.head == last.entryHash
  {
    hide Signed, ManifestHash, ReferenceTo;
    var last := retained[|retained| - 1];
    SignedIsSigned(h, Manifest(MANIFEST_SCHEMA, total, |retained|, Some(retained[0].sequence), Some(last.sequence),
      retained[0].previousEntryHash, last.entryHash, seen, References(retained), ""));
  }

  lemma EmptyManifestFields(h: Hashes)
    ensures
      var m := EmptyManifest(h);
      && m.schema == MANIFEST_SCHEMA && m.manifestHash == ManifestHash(h, m)
      && m.totalEntries == m.retainedCount == 0 && m.seen == [] && m.entries == [] && m.anchor == m.head == ZERO_HASH
  {
    hide Signed, ManifestHash;
    SignedIsSigned(h, Manifest(MANIFEST_SCHEMA, 0, 0, None, None, ZERO_HASH, ZERO_HASH, [], [], ""));
  }

  /** What the directory's manifest and its retained entries are. */
  lemma HeldParts(h: Hashes, d: Directory, l: Ledger)
    requires Holds(h, d, l)
    ensures
      var m, es := LoadedManifest(h, d), Retained(d, l.all);
      && Chain(h, l.all) && |es| <= |l.all| && es == l.all[|l.all| - |es|..]
      && (l.all == [] ==> es == [] && m == EmptyManifest(h))
      && (l.all != [] ==> es != [] && m == ManifestOf(h, |l.all|, SourceHashes(l.all), es))
  {
    hide Chain, ManifestOf, EmptyManifest, NameOf, SourceHashes;
  }

  /** The hashes at both ends of a suffix of a chain. */
  lemma ChainEnds(h: Hashes, all: seq<Entry>, start: nat)
    requires Chain(h, all) && start < |all|
    ensures all[start].previousEntryHash == EndOf(all[..start])
    ensures all[|all| - 1].entryHash == EndOf(all)
  {
    hide SourceFault, EntryHash, SourceHashes;
    assert Linked(h, all, start);
  }

  lemma HeldManifest(h: Hashes, d: Directory, l: Ledger)
    requires Holds(h, d, l)
    ensures
      var m, es := LoadedManifest(h, d), Retained(d, l.all);
      && |es| == m.retainedCount == |m.entries|
      && (l.all == [] <==> es == [])
      && m.entries == References(es)
      && m.seen == SourceHashes(l.all)
      && m.totalEntries == |l.all|
      && m.anchor == EndOf(l.all[..|l.all| - |es|])
      && m.head == EndOf(l.all)
      && IsSigned(h, m) && EndsFit(m, es)
  {
    hide Holds, LoadedManifest, Retained, Chain, ManifestOf, EmptyManifest, References, SourceHashes;
    var all, es := l.all, Retained(d, l.all);
    HeldParts(h, d, l);
    ChainSourcesDistinct(h, all);
    if all == [] {
      EmptyManifestFields(h);
    } else {
      ManifestOfFields(h, |all|, SourceHashes(all), es);
      ChainEnds(h, all, |all| - |es|);
    }
  }

  lemma ChainLinks(h: Hashes, all: seq<Entry>, i: nat)
    requires Chain(h, all) && i < |all|
    ensures Linked(h, all, i)
  {
  }

  /** What an entry of a suffix of a chain is, and how it goes with those before it. */
  lemma LinkInSuffix(h: Hashes, all: seq<Entry>, start: nat, i: nat)
    requires start + i < |all| && Chain(h, all)
    ensures
      var es := all[start..];
      && es[i] == all[start + i]
      && es[i].schema == "phase4ac.artifact-history-entry.v1" && es[i].entryHash == h.entry(es[i].(entryHash := ""))
      && IsSound(h, es[i].source, es[i].kind) && es[i].source.artifactHash == es[i].sourceArtifactHash
      && es[i].previousEntryHash == (if i == 0 then EndOf(all[..start]) else es[i - 1].entryHash)
      && (i > 0 ==> es[i].sequence == es[i - 1].sequence + 1 && es[i].generatedAt > es[i - 1].generatedAt)
      && forall j :: 0 <= j < i ==> es[j].sourceArtifactHash != es[i].sourceArtifactHash
  {
    hide IsSound, Chain;
    var es := all[start..];
    ChainLinks(h, all, start + i);
    if i > 0 {
      ChainLinks(h, all, start + i - 1);
      assert es[i - 1] == all[start + i - 1];
    }
    forall j | 0 <= j < i ensures es[j].sourceArtifactHash != es[i].sourceArtifactHash {
      assert es[j] == all[start + j];
    }
  }

  lemma LinkFits(h: Hashes, files: map<FileName, Entry>, m: Manifest, all: seq<Entry>, start: nat, i: nat)
    requires start + i < |all| && Chain(h, all)
    requires m.entries == References(all[start..]) && m.seen == SourceHashes(all)
    requires m.anchor == EndOf(all[..start])
    requires NameOf(all[start + i]) in files && files[NameOf(all[start + i])] == all[start + i]
    ensures EntryFits(h, files, m, all[start..], i)
  {
    hide IsSound, NameOf, IsNamed, Chain, EndOf, References;
    LinkInSuffix(h, all, start, i);
    NamedExactly(NameOf(all[start + i]), all[start + i]);
    assert m.entries[i] == ReferenceTo(all[start..][i]);
    assert SourceHashes(all)[start + i] == all[start + i].sourceArtifactHash;
  }

  lemma HeldFile(h: Hashes, d: Directory, l: Ledger, i: nat)
    requires Holds(h, d, l) && i < |Retained(d, l.all)|
    ensures
      var e := Retained(d, l.all)[i];
      NameOf(e) in d.files && d.files[NameOf(e)] == e
  {
    hide Chain, ManifestOf, NameOf, Retained;
    assert Retained(d, l.all)[i] in Retained(d, l.all);
  }

  lemma HeldEntryFits(h: Hashes, d: Directory, l: Ledger, i: nat)
    requires Holds(h, d, l) && i < |Retained(d, l.all)|
    ensures |LoadedManifest(h, d).entries| == |Retained(d, l.all)|
    ensures EntryFits(h, d.files, LoadedManifest(h, d), Retained(d, l.all), i)
  {
    hide Holds, Retained, Chain, NameOf, LoadedManifest, EntryFits, PreviousHash, References, SourceHashes,
      ManifestFault, EndsFault, EmptyManifest, ManifestOf;
    HeldParts(h, d, l);
    HeldManifest(h, d, l);
    HeldFile(h, d, l, i);
    var es, start := Retained(d, l.all), |l.all| - |Retained(d, l.all)|;
    assert es == l.all[start..] && es[i] == l.all[start + i];
    LinkFits(h, d.files, LoadedManifest(h, d), l.all, start, i);
  }

  /** A directory that holds a ledger is described, and validated, as the newest entries of that ledger. */
  lemma HeldIsDescribed(h: Hashes, d: Directory, l: Ledger)
    requires Holds(h, d, l)
    ensures Validate(h, d) == Ok((LoadedManifest(h, d), Retained(d, l.all)))
  {
    hide EntryFits, Linked, Validate, ManifestOf, LoadedManifest, IsLoaded, IsSigned, EndsFit, Retained, Holds;
    var m, es := LoadedManifest(h, d), Retained(d, l.all);
    HeldManifest(h, d, l);
    LoadedExactly(h, d, m);
    forall i | 0 <= i < |es|
      ensures EntryFits(h, d.files, m, es, i)
    {
      HeldEntryFits(h, d, l, i);
    }
    ValidateExact(h, d, m, es);
  }

  function NextEntry(h: Hashes, all: seq<Entry>, source: Source, kind: string): Entry {
    NewEntry(h, |all| + 1, kind, source, EndOf(all))
  }

  /** Everything an append to these committed entries needs, apart from a free file name. */
  ghost predicate Retriable(h: Hashes, all: seq<Entry>, source: Source, kind: string, retention: int) {
    && retention >= 1
    && IsSound(h, source, kind)
    && source.artifactHash !in SourceHashes(all)
    && (all != [] ==> source.generatedAt > all[|all| - 1].generatedAt)
  }

  /** When an append to a held ledger is accepted. */
  ghost predicate Acceptable(h: Hashes, d: Directory, all: seq<Entry>, source: Source, kind: string, retention: int) {
    Retriable(h, all, source, kind, retention) && NameOf(NextEntry(h, all, source, kind)) !in d.files
  }

  lemma PreviousHashMatches(head: Digest, es: seq<Entry>, all: seq<Entry>)
    requires head == EndOf(all)
    requires es != [] ==> all != [] && es[|es| - 1] == all[|all| - 1]
    ensures PreviousHash(head, es) == EndOf(all)
  {
  }

  lemma NewEntrySource(h: Hashes, sequence: int, kind: string, source: Source, previousHash: Digest)
    ensures
      var e := NewEntry(h, sequence, kind, source, previousHash);
      && e.source == source && e.kind == kind && e.sequence == sequence && e.generatedAt == source.generatedAt
      && e.sourceArtifactHash == source.artifactHash
  {
  }

  lemma SourceHashesAppend(all: seq<Entry>, e: Entry)
    ensures SourceHashes(all + [e]) == SourceHashes(all) + [e.sourceArtifactHash]
  {
  }

  lemma RetainedEnds(d: Directory, all: seq<Entry>)
    ensures Retained(d, all) != [] ==> all != [] && Retained(d, all)[|Retained(d, all)| - 1] == all[|all| - 1]
  {
  }

  /** What an append finds in a directory that holds a ledger. */
  lemma HeldForAppend(h: Hashes, d: Directory, l: Ledger, source: Source, kind: string)
    requires Holds(h, d, l)
    ensures
      var m, es, e := LoadedManifest(h, d), Retained(d, l.all), NextEntry(h, l.all, source, kind);
      && Validate(h, d) == Ok((m, es))
      && m.totalEntries == |l.all| && m.seen == SourceHashes(l.all)
      && m.seen + [source.artifactHash] == SourceHashes(l.all + [e])
      && NewEntry(h, m.totalEntries + 1, kind, source, PreviousHash(m.head, es)) == e
      && (es == [] <==> l.all == []) && (es != [] ==> es[|es| - 1] == l.all[|l.all| - 1])
  {
    hide ManifestOf, NameOf, Validate, LoadedManifest, Retained, Holds, ManifestFault, EndsFault, SourceHashes,
      NewEntry, PreviousHash, IsSigned, EndsFit, References;
    HeldIsDescribed(h, d, l);
    HeldManifest(h, d, l);
    var m, es := LoadedManifest(h, d), Retained(d, l.all);
    RetainedEnds(d, l.all);
    PreviousHashMatches(m.head, es, l.all);
    NewEntrySource(h, |l.all| + 1, kind, source, EndOf(l.all));
    SourceHashesAppend(l.all, NextEntry(h, l.all, source, kind));
  }

  lemma AcceptedWhenAcceptable(h: Hashes, d: Directory, l: Ledger, source: Source, kind: string, retention: int)
    requires Holds(h, d, l)
    ensures PlanAppend(h, d, source, kind, retention).Ok? <==> Acceptable(h, d, l.all, source, kind, retention)
  {
    hide SourceFault, IsSound, ManifestOf, NameOf, Validate, Unlinkable, Names, LoadedManifest, Retained, Holds,
      NewEntry, PreviousHash, SourceHashes;
    HeldForAppend(h, d, l, source, kind);
    SoundExactly(h, source, kind);
  }

  lemma AcceptedExactly(h: Hashes, d: Directory, l: Ledger, source: Source, kind: string, retention: int)
    requires Holds(h, d, l)
    ensures PlanAppend(h, d, source, kind, retention).Ok? <==> Acceptable(h, d, l.all, source, kind, retention)
    ensures PlanAppend(h, d, source, kind, retention).Ok? ==>
      var plan := PlanAppend(h, d, source, kind, retention).value;
      var e := NextEntry(h, l.all, source, kind);
      var combined := Retained(d, l.all) + [e];
      && plan.entry == e
      && e.source == source && e.kind == kind && e.sequence == |l.all| + 1 && e.generatedAt == source.generatedAt
      && plan.manifest == ManifestOf(h, |l.all| + 1, SourceHashes(l.all + [e]), KeepLast(combined, retention))
      && plan.pruned == Unlinkable(combined, Names(KeepLast(combined, retention)), d.files[NameOf(e) := e])
  {
    hide SourceFault, Acceptable, ManifestOf, NameOf, Validate, Unlinkable, Names, LoadedManifest, Retained, Holds,
      NewEntry, PreviousHash, SourceHashes;
    AcceptedWhenAcceptable(h, d, l, source, kind, retention);
    HeldForAppend(h, d, l, source, kind);
    NewEntrySource(h, |l.all| + 1, kind, source, EndOf(l.all));
  }

  lemma ChainGrows(h: Hashes, d: Directory, all: seq<Entry>, source: Source, kind: string, retention: int)
    requires Chain(h, all) && Acceptable(h, d, all, source, kind, retention)
    ensures Chain(h, all + [NextEntry(h, all, source, kind)])
  {
    hide IsSound, NameOf;
    var e := NextEntry(h, all, source, kind);
    var more := all + [e];
    assert e.(entryHash := "") == e.(entryHash := "").(entryHash := "");
    assert forall j :: 0 <= j < |all| ==> SourceHashes(all)[j] == all[j].sourceArtifactHash;
    forall i | 0 <= i < |more|
      ensures Linked(h, more, i)
    {
      if i < |all| {
        assert Linked(h, all, i);
      }
    }
  }

  /** Unlinking takes no file of a kept entry. */
  lemma {:induction false} UnlinkableSparesKept(combined: seq<Entry>, kept: set<FileName>, files: map<FileName, Entry>)
    ensures forall name :: name in Unlinkable(combined, kept, files) ==> name !in kept
  {
    if combined != [] {
      UnlinkableSparesKept(combined[1..], kept, files - {NameOf(combined[0])});
      UnlinkableSparesKept(combined[1..], kept, files);
    }
  }

  // ---- One append ----

  /** The ledger once an accepted append has got n file operations far: the manifest's replacement commits it. */
  function Commit(l: Ledger, plan: Plan, retention: int, n: nat): Ledger {
    if n < 2 then l else Ledger(l.all + [plan.entry], retention)
  }

  lemma WrittenEntryKeepsOthers(h: Hashes, d: Directory, l: Ledger, e: Entry)
    requires Holds(h, d, l) && NameOf(e) !in d.files
    ensures
      forall k :: k in Retained(d, l.all) + [e] ==>
        NameOf(k) in d.files[NameOf(e) := e] && d.files[NameOf(e) := e][NameOf(k)] == k
  {
    hide NameOf, Chain, ManifestOf;
  }

  lemma KeptAfterAppend(d: Directory, all: seq<Entry>, e: Entry, retention: int) returns (kept: seq<Entry>)
    requires retention >= 1
    ensures kept == KeepLast(Retained(d, all) + [e], retention)
    ensures 1 <= |kept| <= |all| + 1 && |kept| <= retention
    ensures kept == (all + [e])[|all| + 1 - |kept|..]
    ensures forall k :: k in kept ==> k in Retained(d, all) + [e]
  {
    kept := KeepLast(Retained(d, all) + [e], retention);
  }

  lemma FirstOfSubset(names: seq<FileName>, n: nat)
    ensures forall name :: name in FirstOf(names, n) ==> name in names
  {
  }

  lemma RetainedByManifest(d1: Directory, d2: Directory, all: seq<Entry>)
    requires d1.manifest == d2.manifest
    ensures Retained(d1, all) == Retained(d2, all)
  {
  }

  lemma RetainedCountOf(h: Hashes, total: int, seen: seq<Digest>, kept: seq<Entry>)
    requires kept != []
    ensures ManifestOf(h, total, seen, kept).retainedCount == |kept|
  {
  }

  lemma RetainedIs(d: Directory, all: seq<Entry>, kept: seq<Entry>)
    requires d.manifest.Some? && d.manifest.value.retainedCount == |kept| <= |all| && kept == all[|all| - |kept|..]
    ensures Retained(d, all) == kept
  {
  }

  /** Whatever file operation an append is cut short after, the directory holds the old or the new ledger. */
  lemma PerformHolds(
    h: Hashes, d: Directory, l: Ledger, source: Source, kind: string, retention: int, n: nat)
    requires Holds(h, d, l) && PlanAppend(h, d, source, kind, retention).Ok?
    ensures
      var plan := PlanAppend(h, d, source, kind, retention).value;
      Holds(h, Perform(d, plan, n), Commit(l, plan, retention, n))
  {
    hide SourceFault, NameOf, PlanAppend, Linked, NewEntry, ManifestOf, KeepLast, Retained, Unlinkable, SourceHashes;
    AcceptedExactly(h, d, l, source, kind, retention);
    var plan := PlanAppend(h, d, source, kind, retention).value;
    var e := NextEntry(h, l.all, source, kind);
    ChainGrows(h, d, l.all, source, kind, retention);
    WrittenEntryKeepsOthers(h, d, l, e);
    var after := Perform(d, plan, n);
    if n == 1 {
      RetainedByManifest(d, after, l.all);
    } else if n >= 2 {
      var kept := KeptAfterAppend(d, l.all, e, retention);
      RetainedCountOf(h, |l.all| + 1, SourceHashes(l.all + [e]), kept);
      RetainedIs(after, l.all + [e], kept);
      UnlinkableSparesKept(Retained(d, l.all) + [e], Names(kept), d.files[NameOf(e) := e]);
      FirstOfSubset(plan.pruned, n - 2);
      forall k | k in kept
        ensures NameOf(k) in after.files && after.files[NameOf(k)] == k
      {
        assert NameOf(k) in Names(kept);
      }
    }
  }

  /** A completed append keeps the newest entries, as many as the retention allows. */
  lemma AppendKeepsNewest(h: Hashes, d: Directory, l: Ledger, source: Source, kind: string, retention: int, n: nat)
    requires Holds(h, d, l) && PlanAppend(h, d, source, kind, retention).Ok? && n >= 2
    ensures
      var plan := PlanAppend(h, d, source, kind, retention).value;
      var after := Validate(h, Perform(d, plan, n));
      && after.Ok?
      && after.value.0 == plan.manifest
      && after.value.1 == KeepLast(Validate(h, d).value.1 + [plan.entry], retention)
  {
    hide SourceFault, NameOf, PlanAppend, Linked, NewEntry, ManifestOf, KeepLast, Retained, Unlinkable, SourceHashes;
    hide Validate, Holds;
    var plan := PlanAppend(h, d, source, kind, retention).value;
    PerformHolds(h, d, l, source, kind, retention, n);
    HeldIsDescribed(h, d, l);
    HeldIsDescribed(h, Perform(d, plan, n), Commit(l, plan, retention, n));
    AcceptedExactly(h, d, l, source, kind, retention);
    var kept := KeptAfterAppend(d, l.all, plan.entry, retention);
    RetainedCountOf(h, |l.all| + 1, SourceHashes(l.all + [plan.entry]), kept);
    RetainedIs(Perform(d, plan, n), l.all + [plan.entry], kept);
  }

  /** Dying before the manifest is replaced leaves a directory that validates to exactly the old history. */
  lemma DyingEarlyKeepsOldHistory(
    h: Hashes, d: Directory, l: Ledger, source: Source, kind: string, retention: int, n: nat)
    requires Holds(h, d, l) && PlanAppend(h, d, source, kind, retention).Ok? && n < 2
    ensures Validate(h, Perform(d, PlanAppend(h, d, source, kind, retention).value, n)) == Validate(h, d)
  {
    hide SourceFault, NameOf, PlanAppend, Validate, Holds, Retained;
    var plan := PlanAppend(h, d, source, kind, retention).value;
    PerformHolds(h, d, l, source, kind, retention, n);
    HeldIsDescribed(h, d, l);
    HeldIsDescribed(h, Perform(d, plan, n), l);
    RetainedByManifest(d, Perform(d, plan, n), l.all);
  }

  lemma RetryUntouched(
    h: Hashes, d: Directory, l: Ledger, source: Source, kind: string, retention: int, retryRetention: int)
    requires Holds(h, d, l) && PlanAppend(h, d, source, kind, retention).Ok? && retryRetention >= 1
    ensures
      var died := Perform(d, PlanAppend(h, d, source, kind, retention).value, 0);
      PlanAppend(h, died, source, kind, retryRetention).Ok?
  {
    hide PlanAppend, Holds, NextEntry, SourceFault, NameOf;
    AcceptedExactly(h, d, l, source, kind, retention);
    AcceptedExactly(h, d, l, source, kind, retryRetention);
  }

  lemma RetryCollides(
    h: Hashes, d: Directory, l: Ledger, source: Source, kind: string, retention: int, retryRetention: int)
    requires Holds(h, d, l) && PlanAppend(h, d, source, kind, retention).Ok? && retryRetention >= 1
    ensures PlanAppend(h, Perform(d, PlanAppend(h, d, source, kind, retention).value, 1), source, kind, retryRetention)
         == Err(EntryFilenameCollision)
  {
    hide Holds, SourceFault, NameOf, Validate, NewEntry, ManifestOf, Unlinkable, KeepLast, PreviousHash;
    DyingEarlyKeepsOldHistory(h, d, l, source, kind, retention, 1);
  }

  lemma RetryDuplicates(
    h: Hashes, d: Directory, l: Ledger, source: Source, kind: string, retention: int, n: nat, retryRetention: int)
    requires Holds(h, d, l) && PlanAppend(h, d, source, kind, retention).Ok? && retryRetention >= 1 && n >= 2
    ensures PlanAppend(h, Perform(d, PlanAppend(h, d, source, kind, retention).value, n), source, kind, retryRetention)
         == Err(DuplicateSnapshot)
  {
    hide Holds, SourceFault, NameOf, Validate, ManifestOf, Unlinkable, KeepLast, PreviousHash, NewEntry, Perform;
    hide LoadedManifest, Retained, ManifestFault, EndsFault, Acceptable;
    AcceptedExactly(h, d, l, source, kind, retention);
    PerformHolds(h, d, l, source, kind, retention, n);
    var plan := PlanAppend(h, d, source, kind, retention).value;
    var after, ledger := Perform(d, plan, n), Commit(l, plan, retention, n);
    HeldIsDescribed(h, after, ledger);
    HeldManifest(h, after, ledger);
    NewEntrySource(h, |l.all| + 1, kind, source, EndOf(l.all));
    assert SourceHashes(l.all + [plan.entry])[|l.all|] == source.artifactHash;
  }

  /**
   Retrying an append that died: untouched, it goes through; after the entry file alone was written it is refused,
   because that orphaned file stands in its way; once committed it is a duplicate.
   */
  lemma RetryAfterDeath(
    h: Hashes, d: Directory, l: Ledger, source: Source, kind: string, retention: int, n: nat, retryRetention: int)
    requires Holds(h, d, l) && PlanAppend(h, d, source, kind, retention).Ok? && retryRetention >= 1
    ensures
      var died := Perform(d, PlanAppend(h, d, source, kind, retention).value, n);
      var retry := PlanAppend(h, died, source, kind, retryRetention);
      if n == 0 then retry.Ok?
      else if n == 1 then retry == Err(EntryFilenameCollision)
      else retry == Err(DuplicateSnapshot)
  {
    hide *;
    if n == 0 {
      RetryUntouched(h, d, l, source, kind, retention, retryRetention);
    } else if n == 1 {
      RetryCollides(h, d, l, source, kind, retention, retryRetention);
    } else {
      RetryDuplicates(h, d, l, source, kind, retention, n, retryRetention);
    }
  }

  // ---- Every run ----

  /** One attempt to append, and how many file operations it lives to perform. */
  datatype Attempt = Attempt(source: Source, kind: string, retention: int, operations: nat)

  function Step(h: Hashes, d: Directory, a: Attempt): Directory {
    match PlanAppend(h, d, a.source, a.kind, a.retention)
    case Err(_) => d
    case Ok(plan) => Perform(d, plan, a.operations)
  }

  function StepLedger(h: Hashes, d: Directory, l: Ledger, a: Attempt): Ledger {
    match PlanAppend(h, d, a.source, a.kind, a.retention)
    case Err(_) => l
    case Ok(plan) => Commit(l, plan, a.retention, a.operations)
  }

  function Run(h: Hashes, d: Directory, attempts: seq<Attempt>): Directory
    decreases |attempts|
  {
    if attempts == [] then d else Run(h, Step(h, d, attempts[0]), attempts[1..])
  }

  function RunLedger(h: Hashes, d: Directory, l: Ledger, attempts: seq<Attempt>): Ledger
    decreases |attempts|
  {
    if attempts == [] then l
    else RunLedger(h, Step(h, d, attempts[0]), StepLedger(h, d, l, attempts[0]), attempts[1..])
  }

  const NOTHING := Ledger([], 0)

  /** Every run keeps the directory holding its ledger, and the ledger only grows. */
  lemma {:induction false} RunHolds(h: Hashes, d: Directory, l: Ledger, attempts: seq<Attempt>)
    requires Holds(h, d, l)
    ensures Holds(h, Run(h, d, attempts), RunLedger(h, d, l, attempts))
    ensures l.all <= RunLedger(h, d, l, attempts).all
    decreases |attempts|
  {
    hide Holds, PlanAppend, Perform;
    if attempts != [] {
      var a := attempts[0];
      var planned := PlanAppend(h, d, a.source, a.kind, a.retention);
      if planned.Ok? {
        PerformHolds(h, d, l, a.source, a.kind, a.retention, a.operations);
      }
      RunHolds(h, Step(h, d, a), StepLedger(h, d, l, a), attempts[1..]);
    }
  }

  lemma EmptyHoldsNothing(h: Hashes)
    ensures Holds(h, EMPTY, NOTHING)
  {
  }

  lemma HeldBounds(h: Hashes, d: Directory, l: Ledger)
    requires Holds(h, d, l)
    ensures Chain(h, l.all)
    ensures |Retained(d, l.all)| <= |l.all| && Retained(d, l.all) == l.all[|l.all| - |Retained(d, l.all)|..]
    ensures l.all != [] ==> 1 <= |Retained(d, l.all)| <= l.retention
  {
    hide Chain, ManifestOf;
  }

  /**
   After any run of appends from an empty directory, each completed or cut short anywhere, the directory
   validates; it retains a non-empty suffix of the committed entries, within the last committed retention,
   anchored at the last pruned entry; and no source was ever committed twice, pruned or not.
   */
  lemma EveryRunValidates(h: Hashes, attempts: seq<Attempt>)
    ensures
      var d, l := Run(h, EMPTY, attempts), RunLedger(h, EMPTY, NOTHING, attempts);
      && Validate(h, d).Ok?
      && var (m, es) := Validate(h, d).value;
         && |es| <= |l.all| && es == l.all[|l.all| - |es|..]
         && (l.all != [] ==> es != [] && |es| <= l.retention)
         && m.totalEntries == |l.all|
         && m.anchor == EndOf(l.all[..|l.all| - |es|])
         && Chain(h, l.all)
         && Distinct(SourceHashes(l.all)) && m.seen == SourceHashes(l.all)
  {
    hide Validate, Run, RunLedger, LoadedManifest, Distinct, Holds, Retained, Chain, EndOf, IsSigned, EndsFit;
    var d, l := Run(h, EMPTY, attempts), RunLedger(h, EMPTY, NOTHING, attempts);
    EmptyHoldsNothing(h);
    RunHolds(h, EMPTY, NOTHING, attempts);
    HeldBounds(h, d, l);
    HeldIsDescribed(h, d, l);
    HeldManifest(h, d, l);
    ChainSourcesDistinct(h, l.all);
  }

  // ---- The gate history read from a directory ----

  const GATE_KIND := "PHASE4AA_GATE"

  datatype GateHistory = GateHistory(manifestHash: Digest, anchor: Digest, retained: nat, gates: seq<Source>)

  function GatePayloads(es: seq<Entry>): seq<Source> {
    if es == [] then []
    else
      var last := es[|es| - 1];
      GatePayloads(es[..|es| - 1]) + (if last.kind == GATE_KIND then [last.source] else [])
  }

  function Reconstructed(h: Hashes, d: Directory): Result<GateHistory, Error> {
    match Validate(h, d)
    case Err(e) => Err(e)
    case Ok((m, es)) => Ok(GateHistory(m.manifestHash, m.anchor, |es|, GatePayloads(es)))
  }

  method ReconstructGateHistory(directory: HistoryDirectory) returns (r: Result<GateHistory, Error>)
    ensures r == Reconstructed(directory.h, directory.State())
  {
    hide Validate;
    var validated := directory.ValidateHistory();
    if validated.Err? {
      return Err(validated.error);
    }
    var (m, es) := validated.value;
    var gates: seq<Source> := [];
    var i := 0;
    while i < |es|
      invariant 0 <= i <= |es|
      invariant gates == GatePayloads(es[..i])
    {
      assert es[..i + 1][..i] == es[..i];
      if es[i].kind == GATE_KIND {
        gates := gates + [es[i].source];
      }
      i := i + 1;
    }
    assert es[..i] == es;
    r := Ok(GateHistory(m.manifestHash, m.anchor, |es|, gates));
  }

  lemma GatePayloadsGrow(es: seq<Entry>)
    requires es != []
    ensures
      var n := |es| - 1;
      GatePayloads(es) == GatePayloads(es[..n]) + if es[n].kind == "PHASE4AA_GATE" then [es[n].source] else []
  {
  }

  /** The gate payloads are, in order, the sources of exactly the entries of that kind. */
  lemma {:induction false} GatePayloadsExactly(es: seq<Entry>) returns (at: seq<nat>)
    ensures |at| == |GatePayloads(es)|
    ensures forall k :: 0 <= k < |at| ==> at[k] < |es| && GatePayloads(es)[k] == es[at[k]].source
    ensures forall j, k :: 0 <= j < k < |at| ==> at[j] < at[k]
    ensures forall i :: 0 <= i < |es| ==> (i in at <==> es[i].kind == "PHASE4AA_GATE")
  {
    if es == [] {
      at := [];
    } else {
      hide GatePayloads;
      var n := |es| - 1;
      at := GatePayloadsExactly(es[..n]);
      GatePayloadsGrow(es);
      if es[n].kind == "PHASE4AA_GATE" {
        at := at + [n];
      }
    }
  }

  lemma ChainEntry(h: Hashes, all: seq<Entry>, start: nat, i: nat)
    requires Chain(h, all) && start + i < |all|
    ensures IsSound(h, all[start..][i].source, all[start..][i].kind)
    ensures all[start..][i].source.artifactHash == SourceHashes(all)[start + i]
  {
    hide IsSound;
    assert Linked(h, all, start + i);
  }

  /**
   After every run the gate history can be read: it is, in order, the sources of exactly the retained gate entries,
   which are sound gate artifacts without repetition.
   */
  lemma EveryRunReconstructs(h: Hashes, attempts: seq<Attempt>) returns (at: seq<nat>)
    ensures Validate(h, Run(h, EMPTY, attempts)).Ok? && Reconstructed(h, Run(h, EMPTY, attempts)).Ok?
    ensures
      var (m, es) := Validate(h, Run(h, EMPTY, attempts)).value;
      var history := Reconstructed(h, Run(h, EMPTY, attempts)).value;
      && history.manifestHash == m.manifestHash && history.anchor == m.anchor && history.retained == |es|
      && |at| == |history.gates|
      && (forall k :: 0 <= k < |at| ==> at[k] < |es| && history.gates[k] == es[at[k]].source)
      && (forall j, k :: 0 <= j < k < |at| ==> at[j] < at[k])
      && (forall i :: 0 <= i < |es| ==> (i in at <==> es[i].kind == "PHASE4AA_GATE"))
    ensures
      var gates := Reconstructed(h, Run(h, EMPTY, attempts)).value.gates;
      && (forall g :: g in gates ==> IsSound(h, g, "PHASE4AA_GATE"))
      && (forall i, j :: 0 <= i < j < |gates| ==> gates[i].artifactHash != gates[j].artifactHash)
  {
    hide Validate, Run, RunLedger, Chain, IsSound, GatePayloads, SourceHashes;
    EveryRunValidates(h, attempts);
    var all := RunLedger(h, EMPTY, NOTHING, attempts).all;
    var es := Validate(h, Run(h, EMPTY, attempts)).value.1;
    var start := |all| - |es|;
    at := GatePayloadsExactly(es);
    forall k | 0 <= k < |at|
      ensures IsSound(h, GatePayloads(es)[k], "PHASE4AA_GATE")
      ensures GatePayloads(es)[k].artifactHash == SourceHashes(all)[start + at[k]]
    {
      ChainEntry(h, all, start, at[k]);
      assert at[k] in at;
    }
  }

  /** An entry retained both before and after further attempts is the same entry. */
  lemma RetainedEntriesNeverChange(h: Hashes, d: Directory, l: Ledger, attempts: seq<Attempt>, e1: Entry, e2: Entry)
    requires Holds(h, d, l)
    requires Validate(h, d).Ok? && e1 in Validate(h, d).value.1
    requires Validate(h, Run(h, d, attempts)).Ok? && e2 in Validate(h, Run(h, d, attempts)).value.1
    requires e1.sequence == e2.sequence
    ensures e1 == e2
  {
    hide Validate, Run, RunLedger, LoadedManifest, ManifestOf, EntryHash, SourceFault;
    var d2, l2 := Run(h, d, attempts), RunLedger(h, d, l, attempts);
    RunHolds(h, d, l, attempts);
    HeldIsDescribed(h, d, l);
    HeldIsDescribed(h, d2, l2);
    var i :| 0 <= i < |l.all| && l.all[i] == e1;
    var j :| 0 <= j < |l2.all| && l2.all[j] == e2;
    assert Linked(h, l.all, i) && Linked(h, l2.all, j);
  }
}
