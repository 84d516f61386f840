/**
 The append-only artifact history of scripts/local/phase4ac_artifact_history.py: what its files hold and when they
 validate.
 */
module ArtifactHistory {
  import opened Support

  type Digest = string

  const ENTRY_SCHEMA := "phase4ac.artifact-history-entry.v1"
  const MANIFEST_SCHEMA := "phase4ac.artifact-history-manifest.v1"
  const ZERO_HASH: Digest := "0000000000000000000000000000000000000000000000000000000000000000"

  function SourceSchema(kind: string): Option<string> {
    if kind == "PHASE4AA_GATE" then Some("phase4aa.settlement-closure-gate.v1")
    else if kind == "PHASE4AB_DWELL" then Some("phase4ab.settlement-closure-dwell.v1")
    else None
  }

  // ---- Payloads ----

  datatype Source = Source(
    schema: string,
    generatedAt: int,
    productionDatabaseWritten: bool,
    tradingModeChanged: bool,
    content: string,
    artifactHash: Digest)

  datatype Entry = Entry(
    schema: string,
    sequence: int,
    kind: string,
    generatedAt: int,
    sourceArtifactHash: Digest,
    previousEntryHash: Digest,
    source: Source,
    entryHash: Digest)

  datatype FileName = FileName(sequence: int, generatedAt: int, kind: string, hashPrefix: string)

  datatype Reference = Reference(
    filename: FileName,
    entryHash: Digest,
    sequence: int,
    kind: string,
    generatedAt: int,
    sourceArtifactHash: Digest)

  datatype Manifest = Manifest(
    schema: string,
    totalEntries: int,
    retainedCount: int,
    firstSequence: Option<int>,
    lastSequence: Option<int>,
    anchor: Digest,
    head: Digest,
    seen: seq<Digest>,
    entries: seq<Reference>,
    manifestHash: Digest)

  /** The hash of each kind of payload. A payload's own hash field is blanked before it is hashed. */
  datatype Hashes = Hashes(source: Source -> Digest, entry: Entry -> Digest, manifest: Manifest -> Digest)

  function SourceHash(h: Hashes, s: Source): Digest { h.source(s.(artifactHash := "")) }

  function EntryHash(h: Hashes, e: Entry): Digest { h.entry(e.(entryHash := "")) }

  function ManifestHash(h: Hashes, m: Manifest): Digest { h.manifest(m.(manifestHash := "")) }

  function Prefix(hash: Digest): Digest { if |hash| <= 16 then hash else hash[..16] }

  function NameOf(e: Entry): FileName { FileName(e.sequence, e.generatedAt, e.kind, Prefix(e.sourceArtifactHash)) }

  function ReferenceTo(e: Entry): Reference {
    Reference(NameOf(e), e.entryHash, e.sequence, e.kind, e.generatedAt, e.sourceArtifactHash)
  }

  function References(es: seq<Entry>): (rs: seq<Reference>)
    ensures |rs| == |es| && forall i :: 0 <= i < |rs| ==> rs[i] == ReferenceTo(es[i])
  {
    seq(|es|, i requires 0 <= i < |es| => ReferenceTo(es[i]))
  }

  function SourceHashes(es: seq<Entry>): (s: seq<Digest>)
    ensures |s| == |es| && forall i :: 0 <= i < |s| ==> s[i] == es[i].sourceArtifactHash
  {
    seq(|es|, i requires 0 <= i < |es| => es[i].sourceArtifactHash)
  }

  function Signed(h: Hashes, m: Manifest): Manifest { m.(manifestHash := ManifestHash(h, m)) }

  function EmptyManifest(h: Hashes): Manifest {
    Signed(h, Manifest(MANIFEST_SCHEMA, 0, 0, None, None, ZERO_HASH, ZERO_HASH, [], [], ""))
  }

  /** The manifest of a history of the given length that still holds the retained entries. */
  function ManifestOf(h: Hashes, total: int, seen: seq<Digest>, retained: seq<Entry>): Manifest
    requires retained != []
  {
    var last := retained[|retained| - 1];
    Signed(h, Manifest(MANIFEST_SCHEMA, total, |retained|, Some(retained[0].sequence), Some(last.sequence),
      retained[0].previousEntryHash, last.entryHash, seen, References(retained), ""))
  }

  // ---- Validation ----

  datatype Error =
    | SourceSchemaInvalid | SourceHashMismatch | SourceProductionWriteFlagInvalid | SourceTradingFlagInvalid
    | ManifestSchemaInvalid | ManifestHashMismatch | ManifestRetainedCountMismatch
    | ManifestSeenSourcesInvalid | ManifestSeenSourceCountMismatch
    | EntryMissing | EntrySchemaInvalid | EntryFilenameInvalid | EntryHashMismatch | ManifestEntryHashMismatch
    | EntryLinkMissing | EntrySequenceGap | EntryTimestampOutOfOrder | EntrySourceHashMismatch
    | EntryDuplicateSource | EntrySourceNotIndexed
    | ManifestHeadMismatch | ManifestFirstSequenceMismatch | ManifestLastSequenceMismatch | EmptyManifestHeadInvalid
    | RetentionInvalid | DuplicateSnapshot | SourceTimestampOutOfOrder | EntryFilenameCollision

  /** The directory: its manifest file, if written, and its entry files. */
  datatype Directory = Directory(manifest: Option<Manifest>, files: map<FileName, Entry>)

  const EMPTY := Directory(None, map[])

  function SourceFault(h: Hashes, s: Source, kind: string): Option<Error> {
    if SourceSchema(kind) != Some(s.schema) then Some(SourceSchemaInvalid)
    else if s.artifactHash != SourceHash(h, s) then Some(SourceHashMismatch)
    else if s.productionDatabaseWritten then Some(SourceProductionWriteFlagInvalid)
    else if s.tradingModeChanged then Some(SourceTradingFlagInvalid)
    else None
  }

  function LoadedManifest(h: Hashes, d: Directory): Manifest {
    if d.manifest.Some? then d.manifest.value else EmptyManifest(h)
  }

  predicate Distinct(s: seq<Digest>) { forall i, j :: 0 <= i < j < |s| ==> s[i] != s[j] }

  function ManifestFault(h: Hashes, d: Directory): Option<Error> {
    var m := LoadedManifest(h, d);
    if m.schema != MANIFEST_SCHEMA then Some(ManifestSchemaInvalid)
    else if m.manifestHash != ManifestHash(h, m) then Some(ManifestHashMismatch)
    else if m.retainedCount != |m.entries| then Some(ManifestRetainedCountMismatch)
    else if !Distinct(m.seen) then Some(ManifestSeenSourcesInvalid)
    else if |m.seen| != m.totalEntries then Some(ManifestSeenSourceCountMismatch)
    else None
  }

  function PreviousHash(anchor: Digest, done: seq<Entry>): Digest {
    if done == [] then anchor else done[|done| - 1].entryHash
  }

  /** One turn of the validation loop: the entry behind a reference, given the entries already accepted. */
  function CheckReference(h: Hashes, files: map<FileName, Entry>, m: Manifest, r: Reference, done: seq<Entry>)
    : Result<Entry, Error>
  {
    if r.filename !in files then Err(EntryMissing)
    else
      var e := files[r.filename];
      if e.schema != ENTRY_SCHEMA then Err(EntrySchemaInvalid)
      else if r.filename != NameOf(e) then Err(EntryFilenameInvalid)
      else if e.entryHash != EntryHash(h, e) then Err(EntryHashMismatch)
      else if r.entryHash != e.entryHash then Err(ManifestEntryHashMismatch)
      else if e.previousEntryHash != PreviousHash(m.anchor, done) then Err(EntryLinkMissing)
      else if done != [] && e.sequence != done[|done| - 1].sequence + 1 then Err(EntrySequenceGap)
      else if done != [] && e.generatedAt <= done[|done| - 1].generatedAt then Err(EntryTimestampOutOfOrder)
      else if SourceFault(h, e.source, e.kind).Some? then Err(SourceFault(h, e.source, e.kind).value)
      else if e.source.artifactHash != e.sourceArtifactHash then Err(EntrySourceHashMismatch)
      else if e.source.artifactHash in SourceHashes(done) then Err(EntryDuplicateSource)
      else if e.source.artifactHash !in m.seen then Err(EntrySourceNotIndexed)
      else Ok(e)
  }

  function CheckReferences(
    h: Hashes, files: map<FileName, Entry>, m: Manifest, rs: seq<Reference>, done: seq<Entry>)
    : Result<seq<Entry>, Error>
    decreases |rs|
  {
    if rs == [] then Ok(done)
    else match CheckReference(h, files, m, rs[0], done)
      case Err(error) => Err(error)
      case Ok(e) => CheckReferences(h, files, m, rs[1..], done + [e])
  }

  function EndsFault(m: Manifest, es: seq<Entry>): Option<Error> {
    if es == [] then (if m.head != ZERO_HASH then Some(EmptyManifestHeadInvalid) else None)
    else if m.head != es[|es| - 1].entryHash then Some(ManifestHeadMismatch)
    else if m.firstSequence != Some(es[0].sequence) then Some(ManifestFirstSequenceMismatch)
    else if m.lastSequence != Some(es[|es| - 1].sequence) then Some(ManifestLastSequenceMismatch)
    else None
  }

  function Validate(h: Hashes, d: Directory): Result<(Manifest, seq<Entry>), Error> {
    var m := LoadedManifest(h, d);
    if ManifestFault(h, d).Some? then Err(ManifestFault(h, d).value)
    else match CheckReferences(h, d.files, m, m.entries, [])
      case Err(error) => Err(error)
      case Ok(es) => if EndsFault(m, es).Some? then Err(EndsFault(m, es).value) else Ok((m, es))
  }

  // ---- What a validated directory is, stated at once ----

  /** The artifact has the schema of its kind, its own hash, and neither forbidden flag. */
  ghost predicate IsSound(h: Hashes, s: Source, kind: string) {
    && ((kind == "PHASE4AA_GATE" && s.schema == "phase4aa.settlement-closure-gate.v1")
        || (kind == "PHASE4AB_DWELL" && s.schema == "phase4ab.settlement-closure-dwell.v1"))
    && s.artifactHash == h.source(s.(artifactHash := ""))
    && !s.productionDatabaseWritten && !s.tradingModeChanged
  }

  /** The file name of an entry: its number, time and kind, and the first sixteen characters of its source's hash. */
  ghost predicate IsNamed(name: FileName, e: Entry) {
    && name.sequence == e.sequence && name.generatedAt == e.generatedAt && name.kind == e.kind
    && name.hashPrefix <= e.sourceArtifactHash
    && (|name.hashPrefix| == 16 || (|name.hashPrefix| < 16 && name.hashPrefix == e.sourceArtifactHash))
  }

  /** The manifest has its own hash, counts its entries, and lists as many sources as were ever appended, once each. */
  ghost predicate IsSigned(h: Hashes, m: Manifest) {
    && m.schema == "phase4ac.artifact-history-manifest.v1"
    && m.manifestHash == h.manifest(m.(manifestHash := ""))
    && m.retainedCount == |m.entries| && m.totalEntries == |m.seen|
    && forall i, j :: 0 <= i < j < |m.seen| ==> m.seen[i] != m.seen[j]
  }

  /** A directory without a manifest file counts as one with the manifest of no entries. */
  ghost predicate IsLoaded(h: Hashes, d: Directory, m: Manifest) {
    || d.manifest == Some(m)
    || (&& d.manifest.None? && m.schema == "phase4ac.artifact-history-manifest.v1"
        && m.totalEntries == m.retainedCount == 0 && m.firstSequence == m.lastSequence == None
        && m.anchor == m.head == ZERO_HASH && m.seen == [] && m.entries == []
        && m.manifestHash == h.manifest(m.(manifestHash := "")))
  }

  /** Entry i is stored under its own name and hash, is linked to its predecessor, and brings a new source. */
  ghost predicate EntryFits(h: Hashes, files: map<FileName, Entry>, m: Manifest, es: seq<Entry>, i: nat)
    requires i < |es| <= |m.entries|
  {
    var e, r := es[i], m.entries[i];
    && r.filename in files && files[r.filename] == e && IsNamed(r.filename, e)
    && e.schema == "phase4ac.artifact-history-entry.v1"
    && e.entryHash == h.entry(e.(entryHash := "")) && r.entryHash == e.entryHash
    && e.previousEntryHash == (if i == 0 then m.anchor else es[i - 1].entryHash)
    && (i > 0 ==> e.sequence == es[i - 1].sequence + 1 && e.generatedAt > es[i - 1].generatedAt)
    && IsSound(h, e.source, e.kind)
    && e.source.artifactHash == e.sourceArtifactHash
    && (forall j :: 0 <= j < i ==> es[j].sourceArtifactHash != e.sourceArtifactHash)
    && e.sourceArtifactHash in m.seen
  }

  ghost predicate Fits(h: Hashes, files: map<FileName, Entry>, m: Manifest, es: seq<Entry>) {
    |es| <= |m.entries| && forall i :: 0 <= i < |es| ==> EntryFits(h, files, m, es, i)
  }

  /** The manifest names the last entry's hash as its head, and the numbers of the first and the last. */
  ghost predicate EndsFit(m: Manifest, es: seq<Entry>) {
    if es == [] then m.head == ZERO_HASH
    else
      && m.head == es[|es| - 1].entryHash
      && m.firstSequence == Some(es[0].sequence) && m.lastSequence == Some(es[|es| - 1].sequence)
  }

  /** The directory holds exactly these entries under this manifest. */
  ghost predicate Describes(h: Hashes, d: Directory, m: Manifest, es: seq<Entry>) {
    && IsLoaded(h, d, m) && IsSigned(h, m)
    && |es| == |m.entries| && Fits(h, d.files, m, es) && EndsFit(m, es)
  }

  lemma SoundExactly(h: Hashes, s: Source, kind: string)
    ensures SourceFault(h, s, kind).None? <==> IsSound(h, s, kind)
  {
  }

  lemma NamedExactly(name: FileName, e: Entry)
    ensures name == NameOf(e) <==> IsNamed(name, e)
  {
    if IsNamed(name, e) {
      assert name.hashPrefix == e.sourceArtifactHash[..|name.hashPrefix|];
    }
  }

  lemma SignedExactly(h: Hashes, d: Directory)
    ensures ManifestFault(h, d).None? <==> IsSigned(h, LoadedManifest(h, d))
  {
  }

  lemma LoadedExactly(h: Hashes, d: Directory, m: Manifest)
    ensures IsLoaded(h, d, m) <==> m == LoadedManifest(h, d)
  {
    var blank := Manifest(MANIFEST_SCHEMA, 0, 0, None, None, ZERO_HASH, ZERO_HASH, [], [], "");
    if d.manifest.None? {
      assert blank == blank.(manifestHash := "") == EmptyManifest(h).(manifestHash := "");
      if IsLoaded(h, d, m) {
        assert m.(manifestHash := "") == blank;
        assert m == blank.(manifestHash := m.manifestHash);
      }
    }
  }

  lemma EndsExactly(m: Manifest, es: seq<Entry>)
    ensures EndsFault(m, es).None? <==> EndsFit(m, es)
  {
  }

  lemma FitsExtends(h: Hashes, files: map<FileName, Entry>, m: Manifest, done: seq<Entry>, e: Entry)
    requires Fits(h, files, m, done) && |done| < |m.entries|
    ensures CheckReference(h, files, m, m.entries[|done|], done) == Ok(e) <==> Fits(h, files, m, done + [e])
  {
    hide SourceFault, NameOf, IsNamed, IsSound;
    var more := done + [e];
    NamedExactly(m.entries[|done|].filename, e);
    SoundExactly(h, e.source, e.kind);
    forall i | 0 <= i < |done|
      ensures EntryFits(h, files, m, more, i) <==> EntryFits(h, files, m, done, i)
    {
    }
    if Fits(h, files, m, more) {
      assert EntryFits(h, files, m, more, |done|);
      assert forall j :: 0 <= j < |done| ==> SourceHashes(done)[j] == more[j].sourceArtifactHash;
    }
  }

  lemma FitsPrefix(h: Hashes, files: map<FileName, Entry>, m: Manifest, es: seq<Entry>, k: nat)
    requires Fits(h, files, m, es) && k <= |es|
    ensures Fits(h, files, m, es[..k])
  {
    forall i | 0 <= i < k
      ensures EntryFits(h, files, m, es[..k], i)
    {
      assert EntryFits(h, files, m, es, i);
    }
  }

  lemma {:induction false} CheckReferencesExact(
    h: Hashes, files: map<FileName, Entry>, m: Manifest, done: seq<Entry>, es: seq<Entry>)
    requires Fits(h, files, m, done)
    ensures CheckReferences(h, files, m, m.entries[|done|..], done) == Ok(es)
       <==> done <= es && |es| == |m.entries| && Fits(h, files, m, es)
    decreases |m.entries| - |done|
  {
    hide EntryFits, CheckReference;
    var k := |done|;
    if k == |m.entries| {
      assert m.entries[k..] == [];
      if done <= es && |es| == k {
        assert es == es[..k] == done;
      }
    } else {
      var rs := m.entries[k..];
      assert rs[0] == m.entries[k] && rs[1..] == m.entries[k + 1..];
      var head := CheckReference(h, files, m, m.entries[k], done);
      if head.Ok? {
        FitsExtends(h, files, m, done, head.value);
        CheckReferencesExact(h, files, m, done + [head.value], es);
      }
      if done <= es && |es| == |m.entries| && Fits(h, files, m, es) {
        assert es[..k + 1] == done + [es[k]];
        FitsPrefix(h, files, m, es, k + 1);
        FitsExtends(h, files, m, done, es[k]);
        assert done + [es[k]] <= es;
      }
    }
  }

  /** The validation loop accepts exactly the directories so described, and returns that description. */
  lemma ValidateExact(h: Hashes, d: Directory, m: Manifest, es: seq<Entry>)
    ensures Validate(h, d) == Ok((m, es)) <==> Describes(h, d, m, es)
  {
    hide EntryFits, CheckReference, ManifestFault, EndsFault, LoadedManifest, IsLoaded, IsSigned, EndsFit;
    var loaded := LoadedManifest(h, d);
    LoadedExactly(h, d, m);
    SignedExactly(h, d);
    EndsExactly(m, es);
    assert loaded.entries[0..] == loaded.entries;
    CheckReferencesExact(h, d.files, loaded, [], es);
  }

  /** A manifest file of the right schema that no longer has its own hash is refused for that, whatever it lists. */
  lemma EditedManifestIsRefused(h: Hashes, d: Directory)
    requires d.manifest.Some? && d.manifest.value.schema == "phase4ac.artifact-history-manifest.v1"
    requires d.manifest.value.manifestHash != h.manifest(d.manifest.value.(manifestHash := ""))
    ensures Validate(h, d) == Err(ManifestHashMismatch)
  {
  }

  // ---- The head hash determines the retained entries ----

  /** Two different entries that hash alike. */
  predicate Collide(h: Hashes, a: Entry, b: Entry) {
    a.(entryHash := "") != b.(entryHash := "") && h.entry(a.(entryHash := "")) == h.entry(b.(entryHash := ""))
  }

  /** Among the k newest entries of two histories, two at the same distance from the head collide. */
  ghost predicate TailsCollide(h: Hashes, es1: seq<Entry>, es2: seq<Entry>, k: nat)
    requires k <= |es1| && k <= |es2|
  {
    exists i, j :: 0 <= i < |es1| && 0 <= j < |es2| && |es1| - i == |es2| - j <= k && Collide(h, es1[i], es2[j])
  }

  lemma SameOrCollide(h: Hashes, a: Entry, b: Entry)
    requires a.entryHash == h.entry(a.(entryHash := "")) && b.entryHash == h.entry(b.(entryHash := ""))
    requires a.entryHash == b.entryHash
    ensures a == b || Collide(h, a, b)
  {
    assert a == a.(entryHash := "").(entryHash := a.entryHash) && b == b.(entryHash := "").(entryHash := b.entryHash);
  }

  /** Every described entry carries its own hash, and its successor, or the head, names it. */
  lemma HashIsNamed(h: Hashes, d: Directory, m: Manifest, es: seq<Entry>, i: nat)
    requires Describes(h, d, m, es) && i < |es|
    ensures es[i].entryHash == h.entry(es[i].(entryHash := ""))
    ensures es[i].entryHash == if i + 1 < |es| then es[i + 1].previousEntryHash else m.head
  {
    hide IsSound, IsNamed, IsSigned, IsLoaded;
    assert EntryFits(h, d.files, m, es, i);
    if i + 1 < |es| {
      assert EntryFits(h, d.files, m, es, i + 1);
    }
  }

  lemma {:induction false} SameHeadSameTail(
    h: Hashes, d1: Directory, d2: Directory, m1: Manifest, m2: Manifest, es1: seq<Entry>, es2: seq<Entry>, k: nat)
    requires Describes(h, d1, m1, es1) && Describes(h, d2, m2, es2)
    requires m1.head == m2.head && k <= |es1| && k <= |es2|
    ensures es1[|es1| - k..] == es2[|es2| - k..] || TailsCollide(h, es1, es2, k)
    decreases k
  {
    hide Describes, Collide;
    if k > 0 {
      SameHeadSameTail(h, d1, d2, m1, m2, es1, es2, k - 1);
      var i, j := |es1| - k, |es2| - k;
      HashIsNamed(h, d1, m1, es1, i);
      HashIsNamed(h, d2, m2, es2, j);
      assert es1[i..] == [es1[i]] + es1[i + 1..] && es2[j..] == [es2[j]] + es2[j + 1..];
      if es1[i + 1..] == es2[j + 1..] {
        if k > 1 {
          assert es1[i + 1] == es1[i + 1..][0] == es2[j + 1..][0] == es2[j + 1];
        }
        assert es1[i].entryHash == es2[j].entryHash;
        SameOrCollide(h, es1[i], es2[j]);
      } else {
        var n, m :| 0 <= n < |es1| && 0 <= m < |es2| && |es1| - n == |es2| - m <= k - 1 && Collide(h, es1[n], es2[m]);
      }
    }
  }

  lemma DescribedLength(h: Hashes, d: Directory, m: Manifest, es: seq<Entry>)
    requires Describes(h, d, m, es)
    ensures |es| == m.retainedCount
  {
    hide Fits, EndsFit, IsLoaded;
  }

  /**
   Two directories that validate with one head hash agree on their most recent entries, as many as both
   retain; otherwise two of those very entries, at the same distance from the head, collide.
   */
  lemma HeadDeterminesHistory(h: Hashes, d1: Directory, d2: Directory)
    requires Validate(h, d1).Ok? && Validate(h, d2).Ok?
    requires Validate(h, d1).value.0.head == Validate(h, d2).value.0.head
    ensures
      var es1, es2 := Validate(h, d1).value.1, Validate(h, d2).value.1;
      var k := if |es1| <= |es2| then |es1| else |es2|;
      && (es1[|es1| - k..] == es2[|es2| - k..] || TailsCollide(h, es1, es2, k))
      && (Validate(h, d1).value.0.retainedCount == Validate(h, d2).value.0.retainedCount ==>
            es1 == es2 || TailsCollide(h, es1, es2, k))
  {
    hide Describes, Validate, TailsCollide;
    var (m1, es1) := Validate(h, d1).value;
    var (m2, es2) := Validate(h, d2).value;
    ValidateExact(h, d1, m1, es1);
    ValidateExact(h, d2, m2, es2);
    var k := if |es1| <= |es2| then |es1| else |es2|;
    SameHeadSameTail(h, d1, d2, m1, m2, es1, es2, k);
    DescribedLength(h, d1, m1, es1);
    DescribedLength(h, d2, m2, es2);
    assert es1[0..] == es1 && es2[0..] == es2;
  }
}
