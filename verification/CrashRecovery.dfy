/**
 Crashes around the settlement transaction and the publication of its receipt pair, and the recovery from them
 (scripts/local/phase4an_crash_recovery_simulation.py).
 */
module CrashRecovery {
  import opened Support

  type Digest = string

  /** The target row; None is SQL NULL, and `rest` stands for the columns the protocol never names. */
  datatype Row = Row(settledAt: Option<string>, rest: string)

  datatype Receipt = Receipt(
    operationId: Digest, ticker: string, beforeHash: Digest, afterHash: Digest, pairId: Digest, artifactHash: Digest)

  datatype Proof = Proof(pairId: Digest, receiptHash: Digest, manifestHash: Digest)

  /** Canonical hashes by kind of payload; a payload's own hash field is blanked first. */
  datatype Hashes = Hashes(
    row: Row -> Digest,
    operation: (string, Digest, string, int) -> Digest,
    pair: (Digest, Digest) -> Digest,
    receipt: Receipt -> Digest,
    proof: Proof -> Digest)

  datatype Content = ReceiptFile(receipt: Receipt) | ProofFile(proof: Proof) | Unreadable

  datatype Name = ReceiptJson | ProofJson | ReceiptTmp | ProofTmp | ReceiptBak | ProofBak

  /** The publication files of the workspace. */
  type Files = map<Name, Content>

  datatype Operation = Operation(id: Digest, ticker: string, before: Row, after: Row)

  function OperationOf(h: Hashes, ticker: string, before: Row, proposed: string, now: int): Operation {
    Operation(h.operation(ticker, h.row(before), proposed, now), ticker, before, before.(settledAt := Some(proposed)))
  }

  function SealReceipt(h: Hashes, r: Receipt): Receipt { r.(artifactHash := h.receipt(r.(artifactHash := ""))) }

  function SealProof(h: Hashes, p: Proof): Proof { p.(manifestHash := h.proof(p.(manifestHash := ""))) }

  function ReceiptOf(h: Hashes, op: Operation): Receipt {
    var afterHash := h.row(op.after);
    SealReceipt(h, Receipt(op.id, op.ticker, h.row(op.before), afterHash, h.pair(op.id, afterHash), ""))
  }

  function ProofOf(h: Hashes, op: Operation): Proof {
    var receipt := ReceiptOf(h, op);
    SealProof(h, Proof(receipt.pairId, receipt.artifactHash, ""))
  }

  predicate PairValid(h: Hashes, files: Files) {
    && ReceiptJson in files && ProofJson in files
    && files[ReceiptJson].ReceiptFile? && files[ProofJson].ProofFile?
    && var receipt, proof := files[ReceiptJson].receipt, files[ProofJson].proof;
       && receipt == SealReceipt(h, receipt)
       && proof == SealProof(h, proof)
       && receipt.pairId == proof.pairId
       && proof.receiptHash == receipt.artifactHash
  }

  /** Two different receipts that hash alike. */
  predicate ReceiptsCollide(h: Hashes, a: Receipt, b: Receipt) {
    && a.(artifactHash := "") != b.(artifactHash := "")
    && h.receipt(a.(artifactHash := "")) == h.receipt(b.(artifactHash := ""))
  }

  /**
   A receipt of one operation and a proof of another form a valid pair exactly when the two receipts are the same
   document, unless these very receipts collide; receipts of different operations are never the same document.
   */
  lemma PairsDoNotMix(h: Hashes, a: Operation, b: Operation)
    ensures
      var mixed: Files := map[ReceiptJson := ReceiptFile(ReceiptOf(h, a)), ProofJson := ProofFile(ProofOf(h, b))];
      && (ReceiptOf(h, a) == ReceiptOf(h, b) ==> PairValid(h, mixed))
      && (PairValid(h, mixed) ==>
            ReceiptOf(h, a) == ReceiptOf(h, b) || ReceiptsCollide(h, ReceiptOf(h, a), ReceiptOf(h, b)))
    ensures a.id != b.id || a.ticker != b.ticker ==> ReceiptOf(h, a) != ReceiptOf(h, b)
  {
    var ra, rb := ReceiptOf(h, a), ReceiptOf(h, b);
    var ua, ub := ra.(artifactHash := ""), rb.(artifactHash := "");
    assert ra == ua.(artifactHash := h.receipt(ua)) && rb == ub.(artifactHash := h.receipt(ub));
  }

  /** What is published for an operation: its receipt and the proof of that receipt, each under its own hash. */
  ghost predicate IsPairOf(h: Hashes, op: Operation, receipt: Receipt, proof: Proof) {
    && receipt.operationId == op.id && receipt.ticker == op.ticker
    && receipt.beforeHash == h.row(op.before) && receipt.afterHash == h.row(op.after)
    && receipt.pairId == h.pair(op.id, h.row(op.after))
    && receipt.artifactHash == h.receipt(receipt.(artifactHash := ""))
    && proof.pairId == receipt.pairId && proof.receiptHash == receipt.artifactHash
    && proof.manifestHash == h.proof(proof.(manifestHash := ""))
  }

  lemma PairExactly(h: Hashes, op: Operation, receipt: Receipt, proof: Proof)
    ensures IsPairOf(h, op, receipt, proof) <==> receipt == ReceiptOf(h, op) && proof == ProofOf(h, op)
  {
    var unsealed := Receipt(
      op.id, op.ticker, h.row(op.before), h.row(op.after), h.pair(op.id, h.row(op.after)), "");
    assert unsealed.(artifactHash := "") == unsealed;
    var blank := Proof(receipt.pairId, receipt.artifactHash, "");
    assert blank.(manifestHash := "") == blank;
    if IsPairOf(h, op, receipt, proof) {
      assert receipt.(artifactHash := "") == unsealed && receipt == unsealed.(artifactHash := receipt.artifactHash);
      assert proof.(manifestHash := "") == blank && proof == blank.(manifestHash := proof.manifestHash);
    }
  }

  /** A pair is valid exactly when both files are there, each with its own hash, and the proof is of this receipt. */
  lemma PairValidExactly(h: Hashes, files: Files)
    ensures PairValid(h, files) <==>
      exists receipt, proof ::
        && ReceiptJson in files && files[ReceiptJson] == ReceiptFile(receipt)
        && ProofJson in files && files[ProofJson] == ProofFile(proof)
        && receipt.artifactHash == h.receipt(receipt.(artifactHash := ""))
        && proof.manifestHash == h.proof(proof.(manifestHash := ""))
        && proof.pairId == receipt.pairId && proof.receiptHash == receipt.artifactHash
  {
    if ReceiptJson in files && ProofJson in files && files[ReceiptJson].ReceiptFile? && files[ProofJson].ProofFile? {
      var receipt, proof := files[ReceiptJson].receipt, files[ProofJson].proof;
      assert files[ReceiptJson] == ReceiptFile(receipt) && files[ProofJson] == ProofFile(proof);
      assert receipt == receipt.(artifactHash := receipt.artifactHash);
      assert proof == proof.(manifestHash := proof.manifestHash);
    }
  }

  // ---- File operations ----

  /** Create opens exclusively, so it leaves an existing file alone. */
  datatype FileStep = Create(name: Name, content: Content) | Replace(source: Name, target: Name) | Unlink(name: Name)

  function Apply(files: Files, step: FileStep): Files {
    match step
    case Create(name, content) => if name in files then files else files[name := content]
    case Replace(source, target) => if source in files then files[target := files[source]] - {source} else files
    case Unlink(name) => files - {name}
  }

  function ApplyAll(files: Files, steps: seq<FileStep>): Files
    decreases |steps|
  {
    if steps == [] then files else ApplyAll(Apply(files, steps[0]), steps[1..])
  }

  function FirstSteps(steps: seq<FileStep>, n: nat): seq<FileStep> {
    if n >= |steps| then steps else steps[..n]
  }

  /** Publishing a pair; `superseding` first puts an older operation's pair in place and moves it to the backups. */
  function PublishSteps(h: Hashes, op: Operation, superseding: Option<Operation>): seq<FileStep> {
    [Create(ReceiptTmp, ReceiptFile(ReceiptOf(h, op))), Create(ProofTmp, ProofFile(ProofOf(h, op)))]
    + (if superseding.None? then [] else [
         Create(ReceiptJson, ReceiptFile(ReceiptOf(h, superseding.value))),
         Create(ProofJson, ProofFile(ProofOf(h, superseding.value))),
         Replace(ReceiptJson, ReceiptBak),
         Replace(ProofJson, ProofBak)])
    + [Replace(ReceiptTmp, ReceiptJson), Replace(ProofTmp, ProofJson)]
  }

  const CLEANING: seq<FileStep> := [
    Unlink(ReceiptJson), Unlink(ProofJson), Unlink(ReceiptTmp), Unlink(ProofTmp), Unlink(ReceiptBak), Unlink(ProofBak)]

  /** What the disk holds: the durable row, and the publication files. */
  datatype Disk = Disk(row: Row, files: Files)

  /** The file operations of one recovery, as decided by the row it finds. */
  function RecoverySteps(h: Hashes, op: Operation, row: Row): seq<FileStep> {
    CLEANING + (if row == op.before then [] else PublishSteps(h, op, None))
  }

  /** A recovery that dies after n file operations, or completes if it needs no more. */
  function Recover(h: Hashes, op: Operation, d: Disk, n: nat): Disk {
    Disk(d.row, ApplyAll(d.files, FirstSteps(RecoverySteps(h, op, d.row), n)))
  }

  function RecoverRepeatedly(h: Hashes, op: Operation, d: Disk, deaths: seq<nat>): Disk
    decreases |deaths|
  {
    if deaths == [] then d else RecoverRepeatedly(h, op, Recover(h, op, d, deaths[0]), deaths[1..])
  }

  const COMPLETE: nat := 10

  /** The two good endings: committed with its own valid receipt pair and nothing else, or untouched with no file. */
  ghost predicate Settled(h: Hashes, op: Operation, d: Disk) {
    if d.row == op.before then
      d.files == map[]
    else
      && d.row == op.after
      && d.files == map[ReceiptJson := ReceiptFile(ReceiptOf(h, op)), ProofJson := ProofFile(ProofOf(h, op))]
      && PairValid(h, d.files)
  }

  lemma {:induction false} ApplyConcat(files: Files, a: seq<FileStep>, b: seq<FileStep>)
    ensures ApplyAll(files, a + b) == ApplyAll(ApplyAll(files, a), b)
    decreases |a|
  {
    if a == [] {
      assert a + b == b;
    } else {
      assert (a + b)[1..] == a[1..] + b;
      ApplyConcat(Apply(files, a[0]), a[1..], b);
    }
  }

  lemma {:induction false} UnlinksRemove(files: Files, steps: seq<FileStep>, name: Name)
    requires forall step :: step in steps ==> step.Unlink?
    ensures Unlink(name) in steps ==> name !in ApplyAll(files, steps)
    ensures name !in files ==> name !in ApplyAll(files, steps)
    decreases |steps|
  {
    if steps != [] {
      UnlinksRemove(Apply(files, steps[0]), steps[1..], name);
      assert steps[0] in steps;
      assert Unlink(name) in steps ==> Unlink(name) == steps[0] || Unlink(name) in steps[1..];
    }
  }

  /** Whatever the six files hold, cleaning empties them. */
  lemma CleaningEmpties(files: Files)
    ensures ApplyAll(files, CLEANING) == map[]
  {
    forall name: Name
      ensures name !in ApplyAll(files, CLEANING)
    {
      hide ApplyAll;
      assert Unlink(name) == CLEANING[
        match name case ReceiptJson => 0 case ProofJson => 1 case ReceiptTmp => 2
                   case ProofTmp => 3 case ReceiptBak => 4 case ProofBak => 5];
      UnlinksRemove(files, CLEANING, name);
    }
  }

  /** The files after each step of publishing a pair over a superseded one. */
  ghost function Superseding(receipt: Content, proof: Content, oldReceipt: Content, oldProof: Content, n: nat): Files {
    match n
    case 0 => map[]
    case 1 => map[ReceiptTmp := receipt]
    case 2 => map[ReceiptTmp := receipt, ProofTmp := proof]
    case 3 => map[ReceiptTmp := receipt, ProofTmp := proof, ReceiptJson := oldReceipt]
    case 4 => map[ReceiptTmp := receipt, ProofTmp := proof, ReceiptJson := oldReceipt, ProofJson := oldProof]
    case 5 => map[ReceiptTmp := receipt, ProofTmp := proof, ReceiptBak := oldReceipt, ProofJson := oldProof]
    case 6 => map[ReceiptTmp := receipt, ProofTmp := proof, ReceiptBak := oldReceipt, ProofBak := oldProof]
    case 7 => map[ReceiptJson := receipt, ProofTmp := proof, ReceiptBak := oldReceipt, ProofBak := oldProof]
    case _ => map[ReceiptJson := receipt, ProofJson := proof, ReceiptBak := oldReceipt, ProofBak := oldProof]
  }

  /** The files after each step of publishing a pair where there was none. */
  ghost function Fresh(receipt: Content, proof: Content, n: nat): Files {
    match n
    case 0 => map[]
    case 1 => map[ReceiptTmp := receipt]
    case 2 => map[ReceiptTmp := receipt, ProofTmp := proof]
    case 3 => map[ReceiptJson := receipt, ProofTmp := proof]
    case _ => map[ReceiptJson := receipt, ProofJson := proof]
  }

  lemma ApplyNext(files: Files, steps: seq<FileStep>, k: nat)
    requires k < |steps|
    ensures ApplyAll(files, steps[..k + 1]) == Apply(ApplyAll(files, steps[..k]), steps[k])
  {
    assert steps[..k + 1] == steps[..k] + [steps[k]];
    ApplyConcat(files, steps[..k], [steps[k]]);
    assert [steps[k]][1..] == [];
  }

  lemma NothingApplied()
    ensures ApplyAll(map[], []) == map[]
  {
  }

  lemma {:induction false} PublishedAfter(h: Hashes, op: Operation, superseding: Option<Operation>, k: nat)
    requires k <= |PublishSteps(h, op, superseding)|
    ensures |PublishSteps(h, op, superseding)| == if superseding.Some? then 8 else 4
    ensures ApplyAll(map[], PublishSteps(h, op, superseding)[..k])
         == if superseding.Some? then
              Superseding(ReceiptFile(ReceiptOf(h, op)), ProofFile(ProofOf(h, op)),
                ReceiptFile(ReceiptOf(h, superseding.value)), ProofFile(ProofOf(h, superseding.value)), k)
            else Fresh(ReceiptFile(ReceiptOf(h, op)), ProofFile(ProofOf(h, op)), k)
  {
    hide ReceiptOf, ProofOf, ApplyAll;
    if k == 0 {
      assert ApplyAll(map[], []) == map[] by { NothingApplied(); }
    } else {
      PublishedAfter(h, op, superseding, k - 1);
      ApplyNext(map[], PublishSteps(h, op, superseding), k - 1);
    }
  }

  lemma PublishingFromEmpty(h: Hashes, op: Operation)
    ensures ApplyAll(map[], PublishSteps(h, op, None))
         == map[ReceiptJson := ReceiptFile(ReceiptOf(h, op)), ProofJson := ProofFile(ProofOf(h, op))]
  {
    hide ReceiptOf, ProofOf, ApplyAll;
    PublishedAfter(h, op, None, 4);
    assert PublishSteps(h, op, None)[..4] == PublishSteps(h, op, None);
  }

  lemma OwnPairIsValid(h: Hashes, op: Operation)
    ensures PairValid(h, map[ReceiptJson := ReceiptFile(ReceiptOf(h, op)), ProofJson := ProofFile(ProofOf(h, op))])
  {
  }

  /** A completed recovery settles any disk whose row is in one of the two states, whatever files it finds. */
  lemma CompleteRecoverySettles(h: Hashes, op: Operation, d: Disk, n: nat)
    requires d.row == op.before || d.row == op.after
    requires n >= COMPLETE
    ensures Settled(h, op, Recover(h, op, d, n))
  {
    hide ReceiptOf, ProofOf, PairValid;
    CleaningEmpties(d.files);
    ApplyConcat(d.files, CLEANING, if d.row == op.before then [] else PublishSteps(h, op, None));
    PublishingFromEmpty(h, op);
    OwnPairIsValid(h, op);
  }

  lemma {:induction false} DeathsKeepRow(h: Hashes, op: Operation, d: Disk, deaths: seq<nat>)
    ensures RecoverRepeatedly(h, op, d, deaths).row == d.row
    decreases |deaths|
  {
    if deaths != [] {
      DeathsKeepRow(h, op, Recover(h, op, d, deaths[0]), deaths[1..]);
    }
  }

  // ---- The operation and its crashes ----

  /** The disk after n steps of begin, swap, commit and publication: the row is durable from the third step on. */
  function OperateThenCrash(h: Hashes, op: Operation, superseding: Option<Operation>, n: nat): Disk {
    if n < 3 then Disk(op.before, map[])
    else Disk(op.after, ApplyAll(map[], FirstSteps(PublishSteps(h, op, superseding), n - 3)))
  }

  /** The receipt and the proof in place are those of this operation. */
  ghost predicate InPlace(h: Hashes, op: Operation, files: Files) {
    && ReceiptJson in files && files[ReceiptJson] == ReceiptFile(ReceiptOf(h, op))
    && ProofJson in files && files[ProofJson] == ProofFile(ProofOf(h, op))
  }

  /**
   Wherever the operation dies, the two files in place, if both are there, belong to one operation, itself or the one it
   supersedes; once the publication is complete they are its own, with the superseded pair in the backups.
   */
  lemma CrashLeavesOnePair(h: Hashes, op: Operation, superseding: Option<Operation>, n: nat)
    ensures
      var files := OperateThenCrash(h, op, superseding, n).files;
      && (ReceiptJson in files && ProofJson in files ==>
            InPlace(h, op, files) || (superseding.Some? && InPlace(h, superseding.value, files)))
      && (n >= 3 + (if superseding.Some? then 8 else 4) ==>
            InPlace(h, op, files) && ReceiptTmp !in files && ProofTmp !in files)
      && (n >= 11 && superseding.Some? ==>
            && ReceiptBak in files && files[ReceiptBak] == ReceiptFile(ReceiptOf(h, superseding.value))
            && ProofBak in files && files[ProofBak] == ProofFile(ProofOf(h, superseding.value)))
      && (n < 3 ==> files == map[])
  {
    hide ReceiptOf, ProofOf, ApplyAll, PublishSteps;
    if n >= 3 {
      var steps := PublishSteps(h, op, superseding);
      var k := if n - 3 >= |steps| then |steps| else n - 3;
      PublishedAfter(h, op, superseding, k);
      assert FirstSteps(steps, n - 3) == steps[..k];
    }
  }

  /**
   A crash after any step of the transaction or the publication, followed by any number of recoveries that die
   after any of their own steps, is settled by one recovery that completes: committed with a valid receipt pair
   exactly when the crash came after the commit, and otherwise untouched with no file.
   */
  lemma EveryCrashIsRecovered(
    h: Hashes, ticker: string, before: Row, proposed: string, now: int,
    superseding: Option<Operation>, n: nat, deaths: seq<nat>)
    requires before.settledAt == None
    ensures
      var op := OperationOf(h, ticker, before, proposed, now);
      var ended := Recover(h, op, RecoverRepeatedly(h, op, OperateThenCrash(h, op, superseding, n), deaths), COMPLETE);
      && op.id == h.operation(ticker, h.row(before), proposed, now) && op.ticker == ticker
      && op.before == before && op.after == Row(Some(proposed), before.rest)
      && (n < 3 ==> ended == Disk(before, map[]))
      && (n >= 3 ==>
            && ended.row == Row(Some(proposed), before.rest) && PairValid(h, ended.files)
            && ended.files.Keys == {ReceiptJson, ProofJson}
            && ended.files[ReceiptJson].ReceiptFile? && ended.files[ProofJson].ProofFile?
            && IsPairOf(h, op, ended.files[ReceiptJson].receipt, ended.files[ProofJson].proof))
  {
    hide ReceiptOf, ProofOf, ApplyAll, RecoverySteps, PublishSteps, IsPairOf, PairValid;
    var op := OperationOf(h, ticker, before, proposed, now);
    var crashed := OperateThenCrash(h, op, superseding, n);
    DeathsKeepRow(h, op, crashed, deaths);
    CompleteRecoverySettles(h, op, RecoverRepeatedly(h, op, crashed, deaths), COMPLETE);
    PairExactly(h, op, ReceiptOf(h, op), ProofOf(h, op));
  }

  // ---- The simulation as the program runs it ----

  datatype DatabaseState = PreTransaction | CommittedState

  datatype Ending =
    | Recovered(crashed: bool, database: DatabaseState, pairValid: bool)
    | TargetAlreadySettled
    | CompareAndSwapFailed

  lemma EmptyIsNoPair(h: Hashes)
    ensures !PairValid(h, map[])
  {
  }

  class Workspace {
    const h: Hashes
    var row: Row
    var pending: Option<Row>
    var files: Files

    constructor (h: Hashes, row: Row)
      ensures this.h == h && this.row == row && pending == None && files == map[]
    {
      this.h, this.row, pending, files := h, row, None, map[];
    }

    /** Performs file operations until done or until the process dies. */
    method PerformSteps(steps: seq<FileStep>, budget: nat) returns (died: bool)
      modifies this`files
      ensures files == ApplyAll(old(files), FirstSteps(steps, budget))
      ensures died == (budget < |steps|)
    {
      var todo := FirstSteps(steps, budget);
      var index := 0;
      assert todo[0..] == todo;
      while index < |todo|
        invariant 0 <= index <= |todo|
        invariant ApplyAll(files, todo[index..]) == ApplyAll(old(files), todo)
      {
        assert todo[index..][0] == todo[index] && todo[index..][1..] == todo[index + 1..];
        match todo[index] {
          case Create(name, content) =>
            if name !in files {
              files := files[name := content];
            }
          case Replace(source, target) =>
            if source in files {
              files := files[target := files[source]] - {source};
            }
          case Unlink(name) => files := files - {name};
        }
        index := index + 1;
      }
      died := budget < |steps|;
    }

    /** The operation, dying after the given number of steps; an uncommitted swap does not survive. */
    method Operate(op: Operation, superseding: Option<Operation>, steps: nat) returns (died: bool, swapFailed: bool)
      requires row == op.before && pending == None && files == map[]
      modifies this
      ensures pending == None
      ensures swapFailed <==> steps >= 2 && old(row).settledAt != None
      ensures swapFailed ==> row == old(row) && files == map[]
      ensures !swapFailed ==> Disk(row, files) == OperateThenCrash(h, op, superseding, steps)
      ensures !swapFailed ==> died == (steps < 3 + |PublishSteps(h, op, superseding)|)
    {
      hide ApplyAll, PublishSteps;
      swapFailed := false;
      if steps < 2 {
        return true, false;
      }
      if row.settledAt != None {
        return false, true;
      }
      pending := Some(op.after);
      if steps == 2 {
        pending := None;
        return true, false;
      }
      row, pending := pending.value, None;
      died := PerformSteps(PublishSteps(h, op, superseding), steps - 3);
    }

    /** Runs the operation into a crash, then recoveries into theirs, then one recovery to its end. */
    method Simulate(
      ticker: string, proposed: string, now: int, superseding: Option<Operation>, steps: nat, deaths: seq<nat>)
      returns (ending: Ending)
      requires pending == None && files == map[]
      modifies this
      ensures old(row).settledAt !in {None, Some("")} ==> ending == TargetAlreadySettled
      ensures old(row).settledAt == Some("") && steps >= 2 ==> ending == CompareAndSwapFailed
      ensures ending == TargetAlreadySettled || ending == CompareAndSwapFailed ==> row == old(row) && files == map[]
      ensures old(row).settledAt == Some("") && steps < 2 ==>
        ending == Recovered(true, PreTransaction, false) && row == old(row) && files == map[]
      ensures old(row).settledAt == None ==>
        var op := OperationOf(h, ticker, old(row), proposed, now);
        && ending.Recovered?
        && ending.crashed == (steps < 3 + |PublishSteps(h, op, superseding)|)
        && Settled(h, op, Disk(row, files))
        && (ending.database == CommittedState <==> steps >= 3)
        && (row == op.after <==> steps >= 3)
        && (ending.pairValid <==> steps >= 3)
    {
      hide ApplyAll, PublishSteps, ReceiptOf, ProofOf, PairValid;
      var before := row;
      if before.settledAt != None && before.settledAt != Some("") {
        return TargetAlreadySettled;
      }
      var op := OperationOf(h, ticker, before, proposed, now);
      var died, swapFailed := Operate(op, superseding, steps);
      if swapFailed {
        return CompareAndSwapFailed;
      }
      ghost var crashed := Disk(row, files);
      var index := 0;
      assert deaths[0..] == deaths;
      while index < |deaths|
        invariant 0 <= index <= |deaths|
        invariant row == crashed.row
        invariant RecoverRepeatedly(h, op, Disk(row, files), deaths[index..])
               == RecoverRepeatedly(h, op, crashed, deaths)
      {
        var _ := PerformSteps(RecoverySteps(h, op, row), deaths[index]);
        index := index + 1;
      }
      CompleteRecoverySettles(h, op, Disk(row, files), COMPLETE);
      var _ := PerformSteps(RecoverySteps(h, op, row), COMPLETE);
      var database := if row == before then PreTransaction else CommittedState;
      ending := Recovered(died, database, PairValid(h, files));
      EmptyIsNoPair(h);
    }
  }
}
