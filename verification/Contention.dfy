/**
 Contention between writers of the settlements table (scripts/local/phase4ao_concurrency_proof.py): a write lock, a
 compare-and-swap on NULL, stale reads, busy refusals, retries and replays, by any number of actors in any order.
 */
module Contention {
  import opened Support

  type Ticker = string

  type Actor = nat

  /** A settlement row; None is SQL NULL, and `rest` stands for the columns the protocol never names. */
  datatype Row = Row(settledAt: Option<string>, rest: string)

  type Table = map<Ticker, Row>

  datatype Swap = Swap(actor: Actor, ticker: Ticker, timestamp: string)

  /** A transaction that holds the write lock, its private copy of the table and the swaps it made there. */
  datatype Transaction = Transaction(actor: Actor, working: Table, swaps: seq<Swap>)

  /** The shared database; `durable` lists, oldest first, every swap that took effect and was committed. */
  datatype World = World(committed: Table, writer: Option<Transaction>, durable: seq<Swap>)

  datatype Action =
    | Begin(actor: Actor)
    | Read(actor: Actor, ticker: Ticker)
    | CompareAndSwap(swap: Swap)
    | Commit(actor: Actor)
    | Rollback(actor: Actor)

  datatype Reply = Busy | Done | Value(settledAt: Option<string>) | Missing | Affected(rows: nat)

  /** The rows the update changes: those of the ticker whose settled_at is NULL. */
  predicate Matches(t: Table, ticker: Ticker) { ticker in t && t[ticker].settledAt == None }

  function Swapped(t: Table, swap: Swap): Table {
    if Matches(t, swap.ticker) then t[swap.ticker := t[swap.ticker].(settledAt := Some(swap.timestamp))] else t
  }

  function Rows(t: Table, swap: Swap): nat { if Matches(t, swap.ticker) then 1 else 0 }

  /** What an actor sees: its own uncommitted copy, or the committed table. */
  function View(w: World, actor: Actor): Table {
    if w.writer.Some? && w.writer.value.actor == actor then w.writer.value.working else w.committed
  }

  function Step(w: World, action: Action): (World, Reply) {
    match action
    case Begin(actor) =>
      if w.writer.Some? then (w, Busy) else (w.(writer := Some(Transaction(actor, w.committed, []))), Done)
    case Read(actor, ticker) =>
      var seen := View(w, actor);
      (w, if ticker in seen then Value(seen[ticker].settledAt) else Missing)
    case CompareAndSwap(swap) =>
      if w.writer.None? then
        var took := if Matches(w.committed, swap.ticker) then [swap] else [];
        (World(Swapped(w.committed, swap), None, w.durable + took), Affected(Rows(w.committed, swap)))
      else
        var open := w.writer.value;
        if open.actor != swap.actor then (w, Busy)
        else
          var took := if Matches(open.working, swap.ticker) then [swap] else [];
          (w.(writer := Some(Transaction(open.actor, Swapped(open.working, swap), open.swaps + took))),
           Affected(Rows(open.working, swap)))
    case Commit(actor) =>
      if w.writer.Some? && w.writer.value.actor == actor then
        (World(w.writer.value.working, None, w.durable + w.writer.value.swaps), Done)
      else (w, Done)
    case Rollback(actor) =>
      if w.writer.Some? && w.writer.value.actor == actor then (w.(writer := None), Done) else (w, Done)
  }

  function Run(w: World, actions: seq<Action>): World
    decreases |actions|
  {
    if actions == [] then w else Run(Step(w, actions[0]).0, actions[1..])
  }

  // ---- Any schedule ----

  ghost predicate Names(swaps: seq<Swap>, ticker: Ticker) { exists swap :: swap in swaps && swap.ticker == ticker }

  /** `after` differs from `before` by these swaps alone, each of a different row and each over a NULL. */
  ghost predicate Explained(before: Table, after: Table, swaps: seq<Swap>) {
    && after.Keys == before.Keys
    && (forall i, j :: 0 <= i < j < |swaps| ==> swaps[i].ticker != swaps[j].ticker)
    && (forall swap :: swap in swaps ==>
          && Matches(before, swap.ticker)
          && after[swap.ticker] == before[swap.ticker].(settledAt := Some(swap.timestamp)))
    && (forall ticker :: ticker in before && !Names(swaps, ticker) ==> after[ticker] == before[ticker])
  }

  ghost predicate Consistent(before: Table, w: World) {
    && Explained(before, w.committed, w.durable)
    && (w.writer.Some? ==> Explained(w.committed, w.writer.value.working, w.writer.value.swaps))
  }

  lemma ExplainedTogether(a: Table, b: Table, c: Table, first: seq<Swap>, second: seq<Swap>)
    requires Explained(a, b, first) && Explained(b, c, second)
    ensures Explained(a, c, first + second)
  {
    forall f, s | f in first && s in second ensures f.ticker != s.ticker {
      assert b[f.ticker].settledAt == Some(f.timestamp) && b[s.ticker].settledAt == None;
    }
    forall swap | swap in first + second
      ensures Matches(a, swap.ticker) && c[swap.ticker] == a[swap.ticker].(settledAt := Some(swap.timestamp))
    {
      if swap in first {
        assert !Names(second, swap.ticker);
      } else {
        assert !Names(first, swap.ticker);
      }
    }
    forall ticker | ticker in a && !Names(first + second, ticker) ensures c[ticker] == a[ticker] {
      assert forall swap :: swap in first || swap in second ==> swap in first + second;
      assert !Names(first, ticker) && !Names(second, ticker);
    }
  }

  lemma OneSwapExplained(t: Table, swap: Swap)
    ensures Explained(t, Swapped(t, swap), if Matches(t, swap.ticker) then [swap] else [])
  {
    if Matches(t, swap.ticker) {
      assert swap in [swap];
      assert Names([swap], swap.ticker);
    }
  }

  lemma NothingExplained(t: Table)
    ensures Explained(t, t, [])
  {
  }

  lemma StepIsConsistent(before: Table, w: World, action: Action)
    requires Consistent(before, w)
    ensures Consistent(before, Step(w, action).0)
  {
    hide Explained, Swapped, Matches;
    NothingExplained(w.committed);
    match action {
      case CompareAndSwap(swap) =>
        if w.writer.None? {
          OneSwapExplained(w.committed, swap);
          ExplainedTogether(before, w.committed, Swapped(w.committed, swap), w.durable,
            if Matches(w.committed, swap.ticker) then [swap] else []);
        } else {
          var open := w.writer.value;
          OneSwapExplained(open.working, swap);
          ExplainedTogether(w.committed, open.working, Swapped(open.working, swap), open.swaps,
            if Matches(open.working, swap.ticker) then [swap] else []);
        }
      case Commit(actor) =>
        if w.writer.Some? {
          ExplainedTogether(before, w.committed, w.writer.value.working, w.durable, w.writer.value.swaps);
        }
      case _ =>
    }
  }

  lemma {:induction false} RunIsConsistent(before: Table, w: World, actions: seq<Action>)
    requires Consistent(before, w)
    ensures Consistent(before, Run(w, actions))
    decreases |actions|
  {
    hide Consistent, Step;
    if actions != [] {
      StepIsConsistent(before, w, actions[0]);
      RunIsConsistent(before, Step(w, actions[0]).0, actions[1..]);
    }
  }

  /**
   In every schedule of begins, reads, swaps, commits and rollbacks by any actors: no row takes two swaps, a row that
   took one holds that swap's timestamp, every other row and column is as it was, and no row appears or disappears.
   */
  lemma NoLostUpdates(before: Table, actions: seq<Action>)
    ensures
      var ended := Run(World(before, None, []), actions);
      && ended.committed.Keys == before.Keys
      && (forall i, j :: 0 <= i < j < |ended.durable| ==> ended.durable[i].ticker != ended.durable[j].ticker)
      && (forall swap :: swap in ended.durable ==>
            && Matches(before, swap.ticker)
            && ended.committed[swap.ticker] == before[swap.ticker].(settledAt := Some(swap.timestamp)))
      && (forall ticker :: ticker in before && !Names(ended.durable, ticker) ==>
            ended.committed[ticker] == before[ticker])
  {
    NothingExplained(before);
    RunIsConsistent(before, World(before, None, []), actions);
  }

  lemma {:induction false} DurableGrows(w: World, actions: seq<Action>)
    ensures w.durable <= Run(w, actions).durable
    decreases |actions|
  {
    if actions != [] {
      var next := Step(w, actions[0]).0;
      assert w.durable <= next.durable;
      DurableGrows(next, actions[1..]);
    }
  }

  /**
   The first swap to take effect on a row wins for good: if after a schedule it is durable, then after any
   continuation the row holds its timestamp, and no other swap of that row is ever durable.
   */
  lemma FirstWinnerStays(before: Table, earlier: seq<Action>, later: seq<Action>, winner: Swap)
    requires winner in Run(World(before, None, []), earlier).durable
    ensures
      var ended := Run(Run(World(before, None, []), earlier), later);
      && winner in ended.durable
      && winner.ticker in ended.committed
      && ended.committed[winner.ticker].settledAt == Some(winner.timestamp)
      && (forall swap :: swap in ended.durable && swap.ticker == winner.ticker ==> swap == winner)
  {
    hide Run;
    var w := World(before, None, []);
    NothingExplained(before);
    RunIsConsistent(before, w, earlier);
    RunIsConsistent(before, Run(w, earlier), later);
    DurableGrows(Run(w, earlier), later);
    var durable := Run(Run(w, earlier), later).durable;
    forall swap | swap in durable && swap.ticker == winner.ticker ensures swap == winner {
      var i, j :| 0 <= i < |durable| && 0 <= j < |durable| && durable[i] == swap && durable[j] == winner;
      assert i == j;
    }
  }

  /**
   Nobody is starved by a stale read: with the lock free, a swap of a NULL row takes effect whatever its actor read
   earlier, and repeating it, or sending any other swap of that row, changes nothing.
   */
  lemma SwapThenReplay(w: World, swap: Swap, replay: Swap)
    requires w.writer == None && replay.ticker == swap.ticker && swap.ticker in w.committed
    ensures
      var first := Step(w, CompareAndSwap(swap));
      var second := Step(first.0, CompareAndSwap(replay));
      && first.1 == Affected(if w.committed[swap.ticker].settledAt == None then 1 else 0)
      && second == (first.0, Affected(0))
  {
    var first := Step(w, CompareAndSwap(swap)).0;
    assert !Matches(first.committed, replay.ticker);
    assert first.durable + [] == first.durable;
  }

  /** While another actor holds the lock, beginning or swapping is refused and changes nothing. */
  lemma LockRefuses(w: World, actor: Actor, ticker: Ticker, timestamp: string)
    requires w.writer.Some? && w.writer.value.actor != actor
    ensures Step(w, Begin(actor)) == (w, Busy)
    ensures Step(w, CompareAndSwap(Swap(actor, ticker, timestamp))) == (w, Busy)
    ensures Step(w, Commit(actor)).0 == w && Step(w, Rollback(actor)).0 == w
  {
  }

  function ActorOf(action: Action): Actor {
    match action
    case CompareAndSwap(swap) => swap.actor
    case Begin(actor) => actor
    case Read(actor, _) => actor
    case Commit(actor) => actor
    case Rollback(actor) => actor
  }

  /** One actor's part of a schedule. */
  function By(actions: seq<Action>, actor: Actor): seq<Action> {
    if actions == [] then []
    else (if ActorOf(actions[0]) == actor then [actions[0]] else []) + By(actions[1..], actor)
  }

  predicate Ends(action: Action, actor: Actor) { action == Commit(actor) || action == Rollback(actor) }

  lemma {:induction false} RivalsDoNotCount(w: World, actor: Actor, actions: seq<Action>)
    requires w.writer.Some? && w.writer.value.actor == actor
    requires forall action :: action in actions ==> !Ends(action, actor)
    ensures Run(w, actions) == Run(w, By(actions, actor))
    decreases |actions|
  {
    if actions != [] {
      var action := actions[0];
      var next := Step(w, action).0;
      assert action in actions && !Ends(action, actor);
      if ActorOf(action) == actor {
        RivalsDoNotCount(next, actor, actions[1..]);
        assert ([action] + By(actions[1..], actor))[1..] == By(actions[1..], actor);
      } else {
        LockRefuses(w, ActorOf(action), "", "");
        RivalsDoNotCount(w, actor, actions[1..]);
        assert [] + By(actions[1..], actor) == By(actions[1..], actor);
      }
    }
  }

  lemma {:induction false} RunConcat(w: World, a: seq<Action>, b: seq<Action>)
    ensures Run(w, a + b) == Run(Run(w, a), b)
    decreases |a|
  {
    hide Step;
    if a == [] {
      assert a + b == b;
    } else {
      assert (a + b)[1..] == a[1..] + b;
      RunConcat(Step(w, a[0]).0, a[1..], b);
    }
  }

  lemma OneStep(w: World, action: Action)
    ensures Run(w, [action]) == Step(w, action).0
  {
    assert [action][1..] == [];
  }

  /**
   A transaction is serial: begun with the lock free and ended by its own actor, it leaves the same database, with the
   same swaps durable, as if nobody else had acted between, whatever the others tried.
   */
  lemma InterleavedTransactionIsSerial(w: World, actor: Actor, actions: seq<Action>, ending: Action)
    requires w.writer == None && Ends(ending, actor)
    requires forall action :: action in actions ==> !Ends(action, actor)
    ensures Run(w, [Begin(actor)] + actions + [ending]) == Run(w, [Begin(actor)] + By(actions, actor) + [ending])
  {
    hide By;
    var begun := Step(w, Begin(actor)).0;
    RunConcat(w, [Begin(actor)] + actions, [ending]);
    RunConcat(w, [Begin(actor)], actions);
    RunConcat(w, [Begin(actor)] + By(actions, actor), [ending]);
    RunConcat(w, [Begin(actor)], By(actions, actor));
    OneStep(w, Begin(actor));
    RivalsDoNotCount(begun, actor, actions);
  }

  /** The swaps that an actor asks for, as it would send them outside any transaction. */
  function SwapsBy(actions: seq<Action>, actor: Actor): seq<Action> {
    if actions == [] then []
    else
      (if actions[0].CompareAndSwap? && actions[0].swap.actor == actor then [actions[0]] else [])
      + SwapsBy(actions[1..], actor)
  }

  /** The database once the open transaction's copy is made its own. */
  function Adopted(w: World): World
    requires w.writer.Some?
  {
    World(w.writer.value.working, None, w.durable + w.writer.value.swaps)
  }

  lemma {:induction false} OpenTransaction(w: World, actor: Actor, actions: seq<Action>)
    requires w.writer.Some? && w.writer.value.actor == actor
    requires forall action :: action in actions ==> !Ends(action, actor)
    ensures
      var open := Run(w, actions);
      && open.writer.Some? && open.writer.value.actor == actor
      && open.committed == w.committed && open.durable == w.durable
      && Adopted(open) == Run(Adopted(w), SwapsBy(actions, actor))
    decreases |actions|
  {
    hide Swapped, Matches, Rows, View;
    if actions != [] {
      var action, rest := actions[0], actions[1..];
      var next := Step(w, action).0;
      assert action in actions && !Ends(action, actor);
      assert [] + SwapsBy(rest, actor) == SwapsBy(rest, actor);
      if action.CompareAndSwap? && action.swap.actor == actor {
        assert Step(Adopted(w), action).0 == Adopted(next) by {
          assert forall a: seq<Swap>, b: seq<Swap>, c: seq<Swap> :: (a + b) + c == a + (b + c);
        }
        assert ([action] + SwapsBy(rest, actor))[1..] == SwapsBy(rest, actor);
      }
      OpenTransaction(next, actor, rest);
    }
  }

  /**
   A transaction is all or nothing: begun with the lock free, whatever anyone does before it ends, its rollback leaves
   the database as it was, and its commit as if its actor had sent the same swaps one by one with nobody else there.
   */
  lemma TransactionIsAllOrNothing(w: World, actor: Actor, actions: seq<Action>)
    requires w.writer == None && forall action :: action in actions ==> !Ends(action, actor)
    ensures Run(w, [Begin(actor)] + actions + [Rollback(actor)]) == w
    ensures Run(w, [Begin(actor)] + actions + [Commit(actor)]) == Run(w, SwapsBy(actions, actor))
  {
    hide SwapsBy;
    var begun := Step(w, Begin(actor)).0;
    RunConcat(w, [Begin(actor)] + actions, [Rollback(actor)]);
    RunConcat(w, [Begin(actor)] + actions, [Commit(actor)]);
    RunConcat(w, [Begin(actor)], actions);
    OneStep(w, Begin(actor));
    OneStep(Run(begun, actions), Rollback(actor));
    OneStep(Run(begun, actions), Commit(actor));
    OpenTransaction(begun, actor, actions);
    assert w.durable + [] == w.durable;
  }

  /** What a read by anybody but the holder of the lock returns after any schedule. */
  ghost predicate ReadsDurable(before: Table, durable: seq<Swap>, ticker: Ticker, reply: Reply) {
    if ticker !in before then reply == Missing
    else if Names(durable, ticker) then
      exists swap :: swap in durable && swap.ticker == ticker && reply == Value(Some(swap.timestamp))
    else reply == Value(before[ticker].settledAt)
  }

  /** Reads change nothing and are never dirty: only its own actor sees what an open transaction has written. */
  lemma ReadsAreClean(before: Table, actions: seq<Action>, actor: Actor, ticker: Ticker)
    ensures
      var ended := Run(World(before, None, []), actions);
      var (after, reply) := Step(ended, Read(actor, ticker));
      && after == ended
      && (if ended.writer.Some? && ended.writer.value.actor == actor then
            reply == if ticker in ended.writer.value.working then Value(ended.writer.value.working[ticker].settledAt)
                     else Missing
          else ReadsDurable(before, ended.durable, ticker, reply))
  {
    hide Run;
    NoLostUpdates(before, actions);
  }

  // ---- The scripted scenarios ----

  datatype Scenario =
    | TwoValidCandidates | DuplicateAttempt | StaleReader | ConflictingTimestamps | LockContention | BusyTimeout
    | ControlledInterleaving | ReplayAfterApparentTimeout | LostUpdateAttempt

  datatype Event =
    | WriteLockAcquired(actor: Actor)
    | BusyRefusal(actor: Actor)
    | CasCommitted(actor: Actor)
    | RetryCas(actor: Actor, affected: nat)
    | DuplicateAttemptRefused(actor: Actor)
    | StaleRead(actor: Actor, value: Option<string>)
    | StaleCas(actor: Actor, affected: nat)
    | CommitResponseObscured(actor: Actor)
    | ReplayCas(actor: Actor, affected: nat)
    | Cas(actor: Actor, affected: nat)

  datatype Counters = Counters(
    successes: nat, lockRefusals: nat, duplicateRefusals: nat, staleReads: nat, retries: nat, apparentTimeout: bool)

  datatype Report = Report(events: seq<Event>, counters: Counters, finalTimestamp: Option<string>)

  datatype Refusal = TargetRowMissing | LostUpdateProofFailed | UnrelatedStateChanged

  const A: Actor := 0
  const B: Actor := 1

  /** The table with the target's settled_at blanked, as the unrelated-state hash reads it. */
  function Masked(t: Table, ticker: Ticker): Table {
    if ticker in t then t[ticker := t[ticker].(settledAt := Some("<INTENDED_FIELD>"))] else t
  }

  /** What each scenario reports when the target row starts NULL. */
  function Expected(scenario: Scenario, timestamp: string): Report {
    match scenario
    case LockContention =>
      Report([WriteLockAcquired(A), BusyRefusal(B), CasCommitted(A), RetryCas(B, 0)],
        Counters(1, 1, 0, 0, 1, false), Some(timestamp))
    case BusyTimeout =>
      Report([WriteLockAcquired(A), BusyRefusal(B), CasCommitted(A)], Counters(1, 1, 0, 0, 0, false), Some(timestamp))
    case DuplicateAttempt => Report([DuplicateAttemptRefused(B)], Counters(1, 0, 1, 0, 0, false), Some(timestamp))
    case StaleReader => Report([StaleRead(B, None), StaleCas(B, 0)], Counters(1, 0, 0, 1, 0, false), Some(timestamp))
    case ControlledInterleaving =>
      Report([StaleRead(B, None), StaleCas(B, 0)], Counters(1, 0, 0, 1, 0, false), Some(timestamp))
    case ReplayAfterApparentTimeout =>
      Report([CommitResponseObscured(A), ReplayCas(A, 0)], Counters(1, 0, 0, 0, 1, true), Some(timestamp))
    case _ => Report([Cas(A, 1), Cas(B, 0)], Counters(1, 0, 0, 0, 0, false), Some(timestamp))
  }

  lemma ExpectedSucceeds(scenario: Scenario, timestamp: string)
    ensures Expected(scenario, timestamp).counters.successes == 1
    ensures Expected(scenario, timestamp).finalTimestamp == Some(timestamp)
  {
  }

  class SharedDatabase {
    var committed: Table
    var writer: Option<Actor>
    var working: Table
    ghost var swaps: seq<Swap>
    ghost var durable: seq<Swap>

    ghost function State(): World
      reads this
    {
      World(committed, if writer.None? then None else Some(Transaction(writer.value, working, swaps)), durable)
    }

    constructor (committed: Table)
      ensures this.committed == committed && State() == World(committed, None, [])
    {
      this.committed, writer, working, swaps, durable := committed, None, map[], [], [];
    }

    method BeginImmediate(actor: Actor) returns (busy: bool)
      modifies this
      ensures (State(), if busy then Busy else Done) == Step(old(State()), Begin(actor))
    {
      busy := writer.Some?;
      if !busy {
        writer, working, swaps := Some(actor), committed, [];
      }
    }

    method Update(swap: Swap) returns (reply: Reply)
      modifies this
      ensures (State(), reply) == Step(old(State()), CompareAndSwap(swap))
    {
      if writer.Some? && writer.value != swap.actor {
        return Busy;
      }
      var table := if writer.Some? then working else committed;
      var affected := 0;
      ghost var took: seq<Swap> := [];
      if swap.ticker in table && table[swap.ticker].settledAt == None {
        table := table[swap.ticker := table[swap.ticker].(settledAt := Some(swap.timestamp))];
        affected := 1;
        took := [swap];
      }
      if writer.Some? {
        working, swaps := table, swaps + took;
      } else {
        committed, durable := table, durable + took;
      }
      reply := Affected(affected);
    }

    method CommitTransaction(actor: Actor)
      modifies this
      ensures State() == Step(old(State()), Commit(actor)).0
    {
      if writer == Some(actor) {
        committed, writer, durable := working, None, durable + swaps;
      }
    }

    /** An update outside any transaction, when nobody holds the lock. */
    method AutocommitUpdate(swap: Swap) returns (affected: nat)
      requires writer == None
      modifies this
      ensures writer == None
      ensures committed == Swapped(old(committed), swap)
      ensures affected == Rows(old(committed), swap)
    {
      var reply := Update(swap);
      affected := reply.rows;
    }

    /** A locked update during which a rival asks for the lock. */
    method UpdateUnderContention(swap: Swap, rival: Actor) returns (refused: bool, affected: nat)
      requires writer == None && rival != swap.actor
      modifies this
      ensures writer == None
      ensures refused
      ensures committed == Swapped(old(committed), swap)
      ensures affected == Rows(old(committed), swap)
    {
      var busy := BeginImmediate(swap.actor);
      refused := BeginImmediate(rival);
      var reply := Update(swap);
      affected := reply.rows;
      CommitTransaction(swap.actor);
    }

    /** The two actors' moves in one scenario, with what is recorded and counted. */
    method Play(ticker: Ticker, first: string, second: string, scenario: Scenario)
      returns (events: seq<Event>, counters: Counters)
      requires writer == None && ticker in committed
      modifies this
      ensures writer == None
      ensures committed == Swapped(old(committed), Swap(A, ticker, first))
      ensures old(committed)[ticker].settledAt != None ==> counters.successes == 0
      ensures old(committed)[ticker].settledAt == None ==>
        events == Expected(scenario, first).events && counters == Expected(scenario, first).counters
    {
      events := [];
      var successes, retries, lockRefusals, duplicateRefusals, staleReads := 0, 0, 0, 0, 0;
      var apparentTimeout := false;
      var affected: nat;
      if scenario == LockContention || scenario == BusyTimeout {
        var refused;
        refused, affected := UpdateUnderContention(Swap(A, ticker, first), B);
        events := events + [WriteLockAcquired(A)];
        if refused {
          lockRefusals := lockRefusals + 1;
          events := events + [BusyRefusal(B)];
        }
        successes := successes + affected;
        events := events + [CasCommitted(A)];
        if scenario == LockContention {
          retries := retries + 1;
          affected := AutocommitUpdate(Swap(B, ticker, second));
          events := events + [RetryCas(B, affected)];
          successes := successes + affected;
        }
      } else if scenario == DuplicateAttempt {
        affected := AutocommitUpdate(Swap(A, ticker, first));
        successes := successes + affected;
        duplicateRefusals := duplicateRefusals + 1;
        events := events + [DuplicateAttemptRefused(B)];
      } else if scenario == StaleReader || scenario == ControlledInterleaving {
        var staleValue := committed[ticker].settledAt;
        staleReads := staleReads + 1;
        events := events + [StaleRead(B, staleValue)];
        affected := AutocommitUpdate(Swap(A, ticker, first));
        successes := successes + affected;
        affected := AutocommitUpdate(Swap(B, ticker, second));
        successes := successes + affected;
        events := events + [StaleCas(B, affected)];
      } else if scenario == ReplayAfterApparentTimeout {
        affected := AutocommitUpdate(Swap(A, ticker, first));
        successes := successes + affected;
        apparentTimeout := true;
        retries := retries + 1;
        affected := AutocommitUpdate(Swap(A, ticker, first));
        successes := successes + affected;
        events := events + [CommitResponseObscured(A), ReplayCas(A, affected)];
      } else {
        affected := AutocommitUpdate(Swap(A, ticker, first));
        successes := successes + affected;
        affected := AutocommitUpdate(Swap(B, ticker, second));
        successes := successes + affected;
        events := events + [Cas(A, 1), Cas(B, affected)];
      }
      counters := Counters(successes, lockRefusals, duplicateRefusals, staleReads, retries, apparentTimeout);
    }

    /**
     Runs one scripted scenario. It succeeds exactly when the target row exists and starts NULL, and then only the
     first timestamp is written and nothing else changes.
     */
    method Simulate(ticker: Ticker, first: string, second: string, scenario: Scenario)
      returns (r: Result<Report, Refusal>)
      requires writer == None
      modifies this
      ensures writer == None
      ensures ticker !in old(committed) ==> r == Err(TargetRowMissing)
      ensures ticker in old(committed) && old(committed)[ticker].settledAt != None ==> r == Err(LostUpdateProofFailed)
      ensures ticker in old(committed) && old(committed)[ticker].settledAt == None ==>
        r == Ok(Expected(scenario, first))
      ensures committed == Swapped(old(committed), Swap(A, ticker, first))
    {
      hide Expected;
      if ticker !in committed {
        return Err(TargetRowMissing);
      }
      var unrelatedBefore := Masked(committed, ticker);
      var events, counters := Play(ticker, first, second, scenario);
      ExpectedSucceeds(scenario, first);
      var finalTimestamp := committed[ticker].settledAt;
      if !(counters.successes == 1 && finalTimestamp == Some(first)) {
        return Err(LostUpdateProofFailed);
      }
      if unrelatedBefore != Masked(committed, ticker) {
        return Err(UnrelatedStateChanged);
      }
      r := Ok(Report(events, counters, finalTimestamp));
    }
  }
}
