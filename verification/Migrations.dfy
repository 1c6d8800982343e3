/**
  Schema migrations run by several processes against one database file.

  A run of the migration engine is a sequence of separate steps: create the
  ledger, read the applied versions, read the highest version, then one
  transaction per missing migration. Between any two steps another process may
  take any number of its own, so the list of applied versions a run has read can
  be stale by the time it is used. The model is a state machine whose action
  sequences are all interleavings, with faults and crashes at every step.

  A migration is identified by its version; a migration list is the sequence of
  its versions in order. The schema is the sequence of migration scripts that
  committed transactions have executed: scripts are not assumed to be repeatable,
  so executing one twice is a different schema.
  */
module Migrations {

  /** The committed contents of the database file, as far as migrations use them. */
  datatype Db = Db(ledgerTable: bool, ledger: seq<int>, scripts: seq<int>)

  const EMPTY_DB := Db(false, [], [])

  /** Versions are positive and strictly increasing, and the first creates the ledger. */
  ghost predicate WellFormed(list: seq<int>) {
    && |list| > 0
    && list[0] > 0
    && forall i, j :: 0 <= i < j < |list| ==> list[i] < list[j]
  }

  /** The ledger records a prefix of the newest list, and the schema is exactly
      the scripts of that prefix, each executed once and in order. */
  ghost predicate Consistent(newest: seq<int>, db: Db) {
    && db.ledger <= newest
    && db.scripts == db.ledger
    && (db.ledger != [] ==> db.ledgerTable)
  }

  /** An empty file is consistent, so every run on a new one is covered. */
  lemma EmptyIsConsistent(newest: seq<int>)
    ensures Consistent(newest, EMPTY_DB)
  {
  }

  /** What committed steps may do to a consistent database. */
  ghost predicate Evolves(newest: seq<int>, before: Db, after: Db) {
    && Consistent(newest, after)
    && before.ledger <= after.ledger
    && (before.ledgerTable ==> after.ledgerTable)
  }

  lemma EvolvesTransitive(newest: seq<int>, a: Db, b: Db, c: Db)
    requires Evolves(newest, a, b) && Evolves(newest, b, c)
    ensures Evolves(newest, a, c)
  {
  }

  /** The highest version in a list, or 0 when it is empty. */
  function Highest(versions: seq<int>): (h: int)
    ensures forall v :: v in versions ==> v <= h
    ensures 0 <= h && (h == 0 || h in versions)
  {
    if versions == [] then 0
    else
      var rest := Highest(versions[..|versions| - 1]);
      var last := versions[|versions| - 1];
      assert versions == versions[..|versions| - 1] + [last];
      if last > rest then last else rest
  }

  lemma HighestOfPrefix(list: seq<int>, k: nat)
    requires WellFormed(list) && k <= |list|
    ensures Highest(list[..k]) == if k == 0 then 0 else list[k - 1]
  {
    if k > 0 {
      assert list[k - 1] in list[..k];
      assert list[k - 1] > 0;
    }
  }

  // ------------------------------------------------------------------
  // Steps on the database
  // ------------------------------------------------------------------

  function CreateLedger(db: Db): Db {
    db.(ledgerTable := true)
  }

  /** Executing a migration's script; the first one only creates the ledger if absent. */
  function RunScript(list: seq<int>, i: nat, db: Db): Db
    requires i < |list|
  {
    Db(db.ledgerTable || i == 0, db.ledger, db.scripts + [list[i]])
  }

  function Record(db: Db, version: int): Db {
    db.(ledger := db.ledger + [version])
  }

  /** A committed migration transaction: script and ledger entry together. */
  function Migrated(list: seq<int>, i: nat, db: Db): Db
    requires i < |list|
  {
    Record(RunScript(list, i, db), list[i])
  }

  lemma MigratedEvolves(newest: seq<int>, i: nat, db: Db)
    requires Consistent(newest, db) && i < |newest|
    requires i == |db.ledger|
    ensures Evolves(newest, db, Migrated(newest, i, db))
  {
    assert newest[..i] + [newest[i]] == newest[..i + 1];
  }

  /** The recorded versions are those before a point in the list: the first that is not
      recorded is the next one to apply. */
  lemma UnrecordedIsNext(newest: seq<int>, i: nat, db: Db)
    requires WellFormed(newest) && Consistent(newest, db) && i < |newest|
    ensures newest[i] in db.ledger <==> i < |db.ledger|
  {
    if i < |db.ledger| {
      assert db.ledger[i] == newest[i];
    }
  }

  // ------------------------------------------------------------------
  // The state machine
  // ------------------------------------------------------------------

  datatype Outcome = Success | TooNew | Failed(conflict: bool)

  datatype Stage = Begun | Ran | Recorded

  datatype Phase =
    | EnsureLedger
    | ReadApplied
    | ReadHighest
    | Loop(next: nat)
    | InTransaction(next: nat, work: Db, stage: Stage)
    | Done(outcome: Outcome)
    | Crashed

  /** One run of Migrate, by a binary that knows the first `known` migrations. */
  datatype Run = Run(known: nat, applied: set<int>, phase: Phase)

  datatype World = World(db: Db, writer: int, runs: map<nat, Run>)

  const NOBODY := -1

  datatype Action =
    | Start(pid: nat, known: nat)
    | Step(pid: nat, fault: bool)
    | Crash(pid: nat)

  function Elements(s: seq<int>): set<int> {
    set v | v in s
  }

  function SetPhase(w: World, pid: nat, phase: Phase): World
    requires pid in w.runs
  {
    w.(runs := w.runs[pid := w.runs[pid].(phase := phase)])
  }

  /** Ends a transaction without commit: the working copy and the lock are dropped. */
  function Abandon(w: World, pid: nat, phase: Phase): World
    requires pid in w.runs
  {
    SetPhase(if w.writer == pid then w.(writer := NOBODY) else w, pid, phase)
  }

  function LoopStep(newest: seq<int>, w: World, pid: nat, fault: bool): World
    requires pid in w.runs && w.runs[pid].phase.Loop?
    requires w.runs[pid].known <= |newest|
  {
    var r := w.runs[pid];
    var i := r.phase.next;
    if i >= r.known then SetPhase(w, pid, Done(Success))
    else if newest[i] in r.applied then SetPhase(w, pid, Loop(i + 1))
    else if fault then SetPhase(w, pid, Done(Failed(false)))
    else if w.writer != NOBODY then w
    else SetPhase(w.(writer := pid), pid, InTransaction(i, w.db, Begun))
  }

  function TransactionStep(newest: seq<int>, w: World, pid: nat, fault: bool): World
    requires pid in w.runs && w.runs[pid].phase.InTransaction?
    requires w.runs[pid].phase.next < |newest|
  {
    var InTransaction(i, work, stage) := w.runs[pid].phase;
    if fault then Abandon(w, pid, Done(Failed(false)))
    else match stage
      case Begun =>
        SetPhase(w, pid, InTransaction(i, RunScript(newest, i, work), Ran))
      case Ran =>
        if newest[i] in work.ledger then Abandon(w, pid, Done(Failed(true)))
        else SetPhase(w, pid, InTransaction(i, Record(work, newest[i]), Recorded))
      case Recorded =>
        SetPhase(w.(db := work, writer := NOBODY), pid, Loop(i + 1))
  }

  function StepRun(newest: seq<int>, w: World, pid: nat, fault: bool): World
    requires pid in w.runs
  {
    var r := w.runs[pid];
    match r.phase
    case EnsureLedger =>
      if fault then SetPhase(w, pid, Done(Failed(false)))
      else if w.writer != NOBODY then w
      else SetPhase(w.(db := CreateLedger(w.db)), pid, ReadApplied)
    case ReadApplied =>
      if fault then SetPhase(w, pid, Done(Failed(false)))
      else w.(runs := w.runs[pid := Run(r.known, Elements(w.db.ledger), ReadHighest)])
    case ReadHighest =>
      if fault then SetPhase(w, pid, Done(Failed(false)))
      else if r.known <= |newest| && Highest(w.db.ledger) > Highest(newest[..r.known])
        then SetPhase(w, pid, Done(TooNew))
      else SetPhase(w, pid, Loop(0))
    case Loop(_) =>
      if r.known <= |newest| then LoopStep(newest, w, pid, fault) else w
    case InTransaction(i, _, _) =>
      if i < |newest| then TransactionStep(newest, w, pid, fault) else w
    case Done(_) => w
    case Crashed => w
  }

  /** An action that is not enabled leaves the world alone. */
  function Apply(newest: seq<int>, w: World, a: Action): World {
    match a
    case Start(pid, known) =>
      if pid in w.runs || known == 0 || known > |newest| then w
      else w.(runs := w.runs[pid := Run(known, {}, EnsureLedger)])
    case Step(pid, fault) =>
      if pid in w.runs then StepRun(newest, w, pid, fault) else w
    case Crash(pid) =>
      if pid !in w.runs || w.runs[pid].phase.Done? then w
      else Abandon(w, pid, Crashed)
  }

  function Execute(newest: seq<int>, db: Db, actions: seq<Action>): World {
    if actions == [] then World(db, NOBODY, map[])
    else Apply(newest, Execute(newest, db, actions[..|actions| - 1]), actions[|actions| - 1])
  }

  // ------------------------------------------------------------------
  // Safety
  // ------------------------------------------------------------------

  ghost predicate RunOk(newest: seq<int>, w: World, pid: nat)
    requires pid in w.runs
  {
    var r := w.runs[pid];
    && 0 < r.known <= |newest|
    && (forall v :: v in r.applied ==> v in w.db.ledger)
    && (!r.phase.EnsureLedger? && !r.phase.Done? && !r.phase.Crashed? ==> w.db.ledgerTable)
    && match r.phase
       case Loop(i) => i <= r.known && i <= |w.db.ledger|
       case InTransaction(i, work, stage) =>
         && i < r.known && i <= |w.db.ledger|
         && w.writer == pid
         && work == (match stage
                     case Begun => w.db
                     case Ran => RunScript(newest, i, w.db)
                     case Recorded => Migrated(newest, i, w.db))
         && (stage.Recorded? ==> i == |w.db.ledger|)
       case Done(Success) => r.known <= |w.db.ledger|
       case _ => true
  }

  ghost predicate Inv(newest: seq<int>, w: World) {
    && Consistent(newest, w.db)
    && (forall pid :: pid in w.runs ==> RunOk(newest, w, pid))
    && (w.writer != NOBODY ==>
          w.writer >= 0 && w.writer in w.runs && w.runs[w.writer].phase.InTransaction?)
  }

  /** Runs other than the acting one stay sound when the database only evolves. */
  lemma OthersStayOk(newest: seq<int>, w: World, w': World, acting: nat)
    requires Inv(newest, w)
    requires Evolves(newest, w.db, w'.db)
    requires w'.db == w.db || w.writer == NOBODY || w.writer == acting
    requires w'.writer == w.writer || w.writer == NOBODY || w.writer == acting
    requires forall pid :: pid in w'.runs && pid != acting ==>
               pid in w.runs && w'.runs[pid] == w.runs[pid]
    ensures forall pid :: pid in w'.runs && pid != acting ==> RunOk(newest, w', pid)
  {
    forall pid | pid in w'.runs && pid != acting
      ensures RunOk(newest, w', pid)
    {
      assert RunOk(newest, w, pid);
      forall v | v in w.runs[pid].applied
        ensures v in w'.db.ledger
      {
        assert v in w.db.ledger;
        var j :| 0 <= j < |w.db.ledger| && w.db.ledger[j] == v;
        assert w'.db.ledger[j] == v;
      }
    }
  }

  lemma LoopStepKeepsInv(newest: seq<int>, w: World, pid: nat, fault: bool)
    requires WellFormed(newest) && Inv(newest, w)
    requires pid in w.runs && w.runs[pid].phase.Loop?
    ensures w.runs[pid].known <= |newest|
    ensures Inv(newest, LoopStep(newest, w, pid, fault))
    ensures LoopStep(newest, w, pid, fault).db == w.db
  {
    var r := w.runs[pid];
    assert RunOk(newest, w, pid);
    var w' := LoopStep(newest, w, pid, fault);
    if r.phase.next < r.known {
      UnrecordedIsNext(newest, r.phase.next, w.db);
    }
    OthersStayOk(newest, w, w', pid);
    assert RunOk(newest, w', pid);
  }

  lemma TransactionStepKeepsInv(newest: seq<int>, w: World, pid: nat, fault: bool)
    requires WellFormed(newest) && Inv(newest, w)
    requires pid in w.runs && w.runs[pid].phase.InTransaction?
    ensures w.runs[pid].phase.next < |newest|
    ensures Inv(newest, TransactionStep(newest, w, pid, fault))
    ensures Evolves(newest, w.db, TransactionStep(newest, w, pid, fault).db)
  {
    var i := w.runs[pid].phase.next;
    assert RunOk(newest, w, pid);
    var w' := TransactionStep(newest, w, pid, fault);
    UnrecordedIsNext(newest, i, w.db);
    if w.runs[pid].phase.stage.Recorded? {
      MigratedEvolves(newest, i, w.db);
    }
    OthersStayOk(newest, w, w', pid);
    assert RunOk(newest, w', pid);
  }

  lemma EarlyStepKeepsInv(newest: seq<int>, w: World, pid: nat, fault: bool)
    requires WellFormed(newest) && Inv(newest, w)
    requires pid in w.runs && !w.runs[pid].phase.Loop? && !w.runs[pid].phase.InTransaction?
    ensures Inv(newest, StepRun(newest, w, pid, fault))
    ensures Evolves(newest, w.db, StepRun(newest, w, pid, fault).db)
  {
    var w' := StepRun(newest, w, pid, fault);
    assert RunOk(newest, w, pid);
    OthersStayOk(newest, w, w', pid);
    assert RunOk(newest, w', pid);
  }

  lemma StartOrCrashKeepsInv(newest: seq<int>, w: World, a: Action)
    requires WellFormed(newest) && Inv(newest, w) && !a.Step?
    ensures Inv(newest, Apply(newest, w, a))
    ensures Apply(newest, w, a).db == w.db
  {
    var w' := Apply(newest, w, a);
    assert a.pid in w.runs ==> RunOk(newest, w, a.pid);
    OthersStayOk(newest, w, w', a.pid);
    assert a.pid in w'.runs ==> RunOk(newest, w', a.pid);
  }

  /** Every action keeps the invariant and changes the database only by evolving it. */
  lemma ApplyKeepsInv(newest: seq<int>, w: World, a: Action)
    requires WellFormed(newest) && Inv(newest, w)
    ensures Inv(newest, Apply(newest, w, a))
    ensures Evolves(newest, w.db, Apply(newest, w, a).db)
  {
    if !a.Step? {
      StartOrCrashKeepsInv(newest, w, a);
    } else if a.pid in w.runs {
      assert RunOk(newest, w, a.pid);
      if w.runs[a.pid].phase.Loop? {
        LoopStepKeepsInv(newest, w, a.pid, a.fault);
      } else if w.runs[a.pid].phase.InTransaction? {
        TransactionStepKeepsInv(newest, w, a.pid, a.fault);
      } else {
        EarlyStepKeepsInv(newest, w, a.pid, a.fault);
      }
    }
  }

  /** Safety over every interleaving, with faults, crashes and older binaries:
      the ledger is a prefix of the newest list and the schema is that prefix,
      each script executed exactly once and in order. */
  lemma {:induction false} AllRunsKeepInv(newest: seq<int>, db: Db, actions: seq<Action>)
    requires WellFormed(newest) && Consistent(newest, db)
    ensures Inv(newest, Execute(newest, db, actions))
    ensures Evolves(newest, db, Execute(newest, db, actions).db)
    decreases |actions|
  {
    if actions != [] {
      var w := Execute(newest, db, actions[..|actions| - 1]);
      AllRunsKeepInv(newest, db, actions[..|actions| - 1]);
      ApplyKeepsInv(newest, w, actions[|actions| - 1]);
      EvolvesTransitive(newest, db, w.db, Execute(newest, db, actions).db);
    }
  }

  ghost predicate Over(r: Run) {
    r.phase.Done? || r.phase.Crashed?
  }

  lemma EndingStep(newest: seq<int>, w: World, a: Action, pid: nat)
    requires WellFormed(newest) && Inv(newest, w)
    requires pid in w.runs && !Over(w.runs[pid])
    ensures pid in Apply(newest, w, a).runs
    ensures Over(Apply(newest, w, a).runs[pid]) ==>
              Apply(newest, w, a).db == w.db && Apply(newest, w, a).writer != pid
  {
    assert RunOk(newest, w, pid);
    if a.pid != pid {
      assert a.pid in w.runs ==> RunOk(newest, w, a.pid);
      assert Apply(newest, w, a).runs[pid] == w.runs[pid];
    }
  }

  /** A step that ends a run, in whatever way, commits nothing and frees the write
      lock; and a run that reports success has every migration it knows applied. */
  lemma EndingLeavesNoPartialEffect(newest: seq<int>, db: Db, actions: seq<Action>, a: Action, pid: nat)
    requires WellFormed(newest) && Consistent(newest, db)
    requires pid in Execute(newest, db, actions).runs && !Over(Execute(newest, db, actions).runs[pid])
    ensures
      var before := Execute(newest, db, actions);
      var after := Execute(newest, db, actions + [a]);
      && pid in after.runs
      && (Over(after.runs[pid]) ==> after.db == before.db && after.writer != pid)
      && (after.runs[pid].phase == Done(Success) ==>
            newest[..after.runs[pid].known] <= after.db.ledger)
  {
    assert (actions + [a])[..|actions + [a]| - 1] == actions;
    AllRunsKeepInv(newest, db, actions);
    AllRunsKeepInv(newest, db, actions + [a]);
    EndingStep(newest, Execute(newest, db, actions), a, pid);
    assert RunOk(newest, Execute(newest, db, actions + [a]), pid);
  }

  // ------------------------------------------------------------------
  // Refusing a newer schema
  // ------------------------------------------------------------------

  lemma OneMoreAction(newest: seq<int>, db: Db, actions: seq<Action>, a: Action)
    ensures Execute(newest, db, actions + [a]) == Apply(newest, Execute(newest, db, actions), a)
  {
    assert (actions + [a])[..|actions|] == actions;
  }

  /** In every run, the step that reads the highest version refuses exactly a ledger longer
      than the binary's list, and lets every other pass to the loop. */
  lemma NewerSchemaIsRefused(newest: seq<int>, db: Db, actions: seq<Action>, pid: nat)
    requires WellFormed(newest) && Consistent(newest, db)
    requires pid in Execute(newest, db, actions).runs && Execute(newest, db, actions).runs[pid].phase == ReadHighest
    ensures
      var w, after := Execute(newest, db, actions), Execute(newest, db, actions + [Step(pid, false)]);
      && pid in after.runs && after.db == w.db
      && (w.runs[pid].known < |w.db.ledger| ==> after.runs[pid].phase == Done(TooNew))
      && (w.runs[pid].known >= |w.db.ledger| ==> after.runs[pid].phase == Loop(0))
  {
    var w := Execute(newest, db, actions);
    AllRunsKeepInv(newest, db, actions);
    OneMoreAction(newest, db, actions, Step(pid, false));
    var known := w.runs[pid].known;
    assert RunOk(newest, w, pid);
    HighestOfPrefix(newest, known);
    HighestOfPrefix(newest, |w.db.ledger|);
    assert w.db.ledger == newest[..|w.db.ledger|];
  }

  /** At action `k` the run read the highest version and found no more than it knows. */
  ghost predicate ReadHighestAt(newest: seq<int>, db: Db, actions: seq<Action>, pid: nat, k: nat) {
    && k < |actions| && actions[k] == Step(pid, false)
    && var w := Execute(newest, db, actions[..k]);
       pid in w.runs && w.runs[pid].phase == ReadHighest && |w.db.ledger| <= w.runs[pid].known
  }

  ghost predicate PastTheCheck(r: Run) {
    r.phase.Loop? || r.phase.InTransaction? || r.phase == Done(Success) || r.phase == Done(Failed(true))
  }

  lemma StepPastTheCheck(newest: seq<int>, w: World, a: Action, pid: nat)
    requires pid in Apply(newest, w, a).runs && PastTheCheck(Apply(newest, w, a).runs[pid])
    ensures pid in w.runs
    ensures PastTheCheck(w.runs[pid]) || (w.runs[pid].phase == ReadHighest && a == Step(pid, false))
  {
  }

  /** Whoever applies migrations or reports success has, at some step before, found the
      ledger no longer than its own list. */
  lemma {:induction false} OnlyCheckedRunsProceed(newest: seq<int>, db: Db, actions: seq<Action>, pid: nat) returns (k: nat)
    requires WellFormed(newest) && Consistent(newest, db)
    requires pid in Execute(newest, db, actions).runs && PastTheCheck(Execute(newest, db, actions).runs[pid])
    ensures ReadHighestAt(newest, db, actions, pid, k)
    decreases |actions|
  {
    var front, a := actions[..|actions| - 1], actions[|actions| - 1];
    var w := Execute(newest, db, front);
    OneMoreAction(newest, db, front, a);
    assert front + [a] == actions;
    StepPastTheCheck(newest, w, a, pid);
    if PastTheCheck(w.runs[pid]) {
      k := OnlyCheckedRunsProceed(newest, db, front, pid);
      assert front[..k] == actions[..k];
    } else {
      k := |front|;
      NewerSchemaIsRefused(newest, db, front, pid);
      assert actions[..k] == front;
    }
  }

  // ------------------------------------------------------------------
  // Faults and crashes
  // ------------------------------------------------------------------

  /** A step that fails, and a crash, end the run there, change no data and free the lock. */
  lemma FaultsEndTheRun(newest: seq<int>, db: Db, actions: seq<Action>, pid: nat)
    requires WellFormed(newest) && Consistent(newest, db)
    requires pid in Execute(newest, db, actions).runs && !Over(Execute(newest, db, actions).runs[pid])
    ensures
      var w := Execute(newest, db, actions);
      var r, crashed, failed := w.runs[pid], Apply(newest, w, Crash(pid)), Apply(newest, w, Step(pid, true));
      && crashed.db == w.db && crashed.writer != pid
      && pid in crashed.runs && crashed.runs[pid].phase == Crashed
      && failed.db == w.db && pid in failed.runs
      && (!r.phase.Loop? || (r.phase.next < r.known <= |newest| && newest[r.phase.next] !in r.applied) ==>
            failed.runs[pid].phase == Done(Failed(false)) && failed.writer != pid)
  {
    var w := Execute(newest, db, actions);
    AllRunsKeepInv(newest, db, actions);
    assert RunOk(newest, w, pid);
  }

  // ------------------------------------------------------------------
  // Every evolution is some run
  // ------------------------------------------------------------------

  /** The world of a single run, by a binary knowing `known` migrations, in its loop. */
  ghost function Looping(newest: seq<int>, before: Db, known: nat, i: nat): World
    requires i <= known <= |newest| && |before.ledger| <= known
  {
    var done := if i < |before.ledger| then |before.ledger| else i;
    World(Db(true, newest[..done], newest[..done]), NOBODY,
          map[0 := Run(known, Elements(before.ledger), Loop(i))])
  }

  /** The four steps that apply one migration, undisturbed. */
  lemma ApplyUndisturbed(newest: seq<int>, w: World, i: nat)
    requires i < |newest| && 0 in w.runs && w.writer == NOBODY
    requires w.runs[0].phase == Loop(i) && i < w.runs[0].known <= |newest|
    requires newest[i] !in w.runs[0].applied && newest[i] !in w.db.ledger
    ensures
      var begun := Apply(newest, w, Step(0, false));
      var ran := Apply(newest, begun, Step(0, false));
      var recorded := Apply(newest, ran, Step(0, false));
      Apply(newest, recorded, Step(0, false))
      == World(Migrated(newest, i, w.db), NOBODY, w.runs[0 := w.runs[0].(phase := Loop(i + 1))])
  {
  }

  lemma SkipTurn(newest: seq<int>, before: Db, known: nat, i: nat)
    requires WellFormed(newest) && Consistent(newest, before)
    requires i < known <= |newest| && i < |before.ledger| <= known
    ensures Apply(newest, Looping(newest, before, known, i), Step(0, false)) == Looping(newest, before, known, i + 1)
  {
    UnrecordedIsNext(newest, i, before);
  }

  lemma ApplyTurn(newest: seq<int>, before: Db, known: nat, i: nat)
    requires WellFormed(newest) && Consistent(newest, before)
    requires |before.ledger| <= i < known <= |newest|
    ensures
      var step := Step(0, false);
      var recorded := Apply(newest, Apply(newest, Apply(newest, Looping(newest, before, known, i), step), step), step);
      Apply(newest, recorded, step) == Looping(newest, before, known, i + 1)
  {
    var w := Looping(newest, before, known, i);
    UnrecordedIsNext(newest, i, before);
    UnrecordedIsNext(newest, i, w.db);
    ApplyUndisturbed(newest, w, i);
    assert newest[..i] + [newest[i]] == newest[..i + 1];
  }

  /** One turn of an undisturbed loop. */
  lemma LoopTurn(newest: seq<int>, before: Db, actions: seq<Action>, known: nat, i: nat) returns (more: seq<Action>)
    requires WellFormed(newest) && Consistent(newest, before)
    requires i < known <= |newest| && |before.ledger| <= known
    requires Execute(newest, before, actions) == Looping(newest, before, known, i)
    ensures Execute(newest, before, more) == Looping(newest, before, known, i + 1)
  {
    var step := Step(0, false);
    OneMoreAction(newest, before, actions, step);
    more := actions + [step];
    if i < |before.ledger| {
      SkipTurn(newest, before, known, i);
    } else {
      OneMoreAction(newest, before, more, step);
      OneMoreAction(newest, before, more + [step], step);
      OneMoreAction(newest, before, more + [step] + [step], step);
      ApplyTurn(newest, before, known, i);
      more := more + [step] + [step] + [step];
    }
  }

  lemma {:induction false} LoopToEnd(newest: seq<int>, before: Db, actions: seq<Action>, known: nat, i: nat) returns (all: seq<Action>)
    requires WellFormed(newest) && Consistent(newest, before)
    requires i <= known <= |newest| && |before.ledger| <= known
    requires Execute(newest, before, actions) == Looping(newest, before, known, i)
    ensures Execute(newest, before, all).db == Db(true, newest[..known], newest[..known])
    decreases known - i
  {
    all := actions;
    if i < known {
      all := LoopTurn(newest, before, actions, known, i);
      all := LoopToEnd(newest, before, all, known, i + 1);
    }
  }

  /** The three steps before the loop, undisturbed. */
  lemma BeginUndisturbed(newest: seq<int>, before: Db, known: nat)
    requires WellFormed(newest) && Consistent(newest, before)
    requires 0 < known <= |newest| && |before.ledger| <= known
    ensures
      var begun := Apply(newest, World(before, NOBODY, map[]), Start(0, known));
      var ensured := Apply(newest, begun, Step(0, false));
      var read := Apply(newest, ensured, Step(0, false));
      Apply(newest, read, Step(0, false)) == Looping(newest, before, known, 0)
  {
    assert before.ledger == newest[..|before.ledger|];
    HighestOfPrefix(newest, |before.ledger|);
    HighestOfPrefix(newest, known);
  }

  /** A run on its own, up to its loop. */
  lemma UpToLoop(newest: seq<int>, before: Db, known: nat) returns (actions: seq<Action>)
    requires WellFormed(newest) && Consistent(newest, before)
    requires 0 < known <= |newest| && |before.ledger| <= known
    ensures Execute(newest, before, actions) == Looping(newest, before, known, 0)
  {
    var step := Step(0, false);
    actions := [Start(0, known)];
    OneMoreAction(newest, before, [], Start(0, known));
    assert [] + [Start(0, known)] == actions;
    OneMoreAction(newest, before, actions, step);
    OneMoreAction(newest, before, actions + [step], step);
    OneMoreAction(newest, before, actions + [step] + [step], step);
    BeginUndisturbed(newest, before, known);
    actions := actions + [step] + [step] + [step];
  }

  /** Whatever an evolution of a consistent database amounts to, some run does it. */
  lemma EvolutionIsReached(newest: seq<int>, before: Db, after: Db) returns (actions: seq<Action>)
    requires WellFormed(newest) && Consistent(newest, before) && Evolves(newest, before, after)
    ensures Execute(newest, before, actions).db == after
  {
    assert before.ledger == newest[..|before.ledger|] && after.ledger == newest[..|after.ledger|];
    if before == after {
      actions := [];
    } else if after.ledger == [] {
      actions := [] + [Start(0, |newest|)] + [Step(0, false)];
      OneMoreAction(newest, before, [], Start(0, |newest|));
      OneMoreAction(newest, before, [] + [Start(0, |newest|)], Step(0, false));
    } else {
      actions := UpToLoop(newest, before, |after.ledger|);
      actions := LoopToEnd(newest, before, actions, |after.ledger|, 0);
    }
  }

  // ------------------------------------------------------------------
  // Completion
  // ------------------------------------------------------------------

  /** No faults and no crashes: a transaction can only fail on the ledger's key. */
  ghost predicate FaultFree(newest: seq<int>, actions: seq<Action>) {
    forall i :: 0 <= i < |actions| ==>
      match actions[i]
      case Start(_, known) => known == |newest|
      case Step(_, fault) => !fault
      case Crash(_) => false
  }

  ghost predicate AllDone(w: World) {
    forall pid :: pid in w.runs ==> w.runs[pid].phase.Done?
  }

  /** A run that has everything recorded so far behind it, so nobody can beat it
      to the next migration without becoming the leader in its place. */
  ghost predicate Leads(newest: seq<int>, w: World, pid: nat) {
    && pid in w.runs
    && w.runs[pid].known == |newest|
    && match w.runs[pid].phase
       case Loop(i) => i == |w.db.ledger|
       case InTransaction(i, _, _) => i == |w.db.ledger|
       case Done(outcome) => outcome == Success
       case _ => false
  }

  ghost predicate Untroubled(newest: seq<int>, w: World, pid: nat)
    requires pid in w.runs
  {
    w.runs[pid].known == |newest| &&
    match w.runs[pid].phase
    case Done(outcome) => outcome == Success
    case InTransaction(i, _, _) => i == |w.db.ledger|
    case Crashed => false
    case ReadHighest => w.runs[pid].applied == Elements(w.db.ledger)
    case Loop(_) => w.runs[pid].applied == Elements(w.db.ledger)
    case _ => true
  }

  ghost predicate SameBinary(newest: seq<int>, w: World) {
    forall pid :: pid in w.runs ==> w.runs[pid].known == |newest|
  }

  /** Either nothing was recorded since the start and nobody failed, or some run leads. */
  ghost predicate Progressing(newest: seq<int>, start: Db, w: World) {
    && SameBinary(newest, w)
    && if w.db.ledger == start.ledger
       then forall pid :: pid in w.runs ==> Untroubled(newest, w, pid)
       else exists pid :: Leads(newest, w, pid)
  }

  lemma HighestIsMonotone(newest: seq<int>, db: Db)
    requires WellFormed(newest) && Consistent(newest, db)
    ensures Highest(db.ledger) <= Highest(newest)
  {
    if Highest(db.ledger) != 0 {
      var j :| 0 <= j < |db.ledger| && db.ledger[j] == Highest(db.ledger);
      assert newest[j] in newest;
    }
  }

  /** The acting run: either it commits and leads, or the ledger is unchanged and it has not failed. */
  lemma UntroubledActs(newest: seq<int>, w: World, pid: nat)
    requires WellFormed(newest) && Inv(newest, w)
    requires pid in w.runs && Untroubled(newest, w, pid)
    ensures var w' := StepRun(newest, w, pid, false);
            if w'.db.ledger == w.db.ledger then Untroubled(newest, w', pid) else Leads(newest, w', pid)
  {
    assert RunOk(newest, w, pid);
    HighestIsMonotone(newest, w.db);
    assert newest[..|newest|] == newest;
    var phase := w.runs[pid].phase;
    if phase.Loop? && phase.next < |newest| {
      UnrecordedIsNext(newest, phase.next, w.db);
    }
    if phase.InTransaction? {
      UnrecordedIsNext(newest, phase.next, w.db);
    }
  }

  lemma OthersStayUntroubled(newest: seq<int>, w: World, a: Action, pid: nat)
    requires FaultFree(newest, [a]) && Apply(newest, w, a).db.ledger == w.db.ledger
    requires pid in Apply(newest, w, a).runs && (pid in w.runs ==> !(a.Step? && pid == a.pid) && Untroubled(newest, w, pid))
    ensures Untroubled(newest, Apply(newest, w, a), pid)
  {
    assert [a][0] == a;
  }

  lemma UntroubledStep(newest: seq<int>, start: Db, w: World, a: Action)
    requires WellFormed(newest) && Inv(newest, w) && FaultFree(newest, [a])
    requires Progressing(newest, start, w) && w.db.ledger == start.ledger
    ensures Progressing(newest, start, Apply(newest, w, a))
  {
    var w' := Apply(newest, w, a);
    assert [a][0] == a;
    BinariesStayTheSame(newest, w, a);
    if a.Step? && a.pid in w.runs {
      UntroubledActs(newest, w, a.pid);
    }
    if w'.db.ledger == start.ledger {
      forall pid | pid in w'.runs
        ensures Untroubled(newest, w', pid)
      {
        if !(a.Step? && pid == a.pid) {
          OthersStayUntroubled(newest, w, a, pid);
        }
      }
    }
  }

  lemma LeaderActs(newest: seq<int>, w: World, leader: nat)
    requires WellFormed(newest) && Inv(newest, w) && Leads(newest, w, leader)
    ensures Leads(newest, StepRun(newest, w, leader, false), leader)
  {
    assert RunOk(newest, w, leader);
    var phase := w.runs[leader].phase;
    if phase.Loop? && phase.next < |newest| {
      UnrecordedIsNext(newest, phase.next, w.db);
    }
    if phase.InTransaction? {
      UnrecordedIsNext(newest, phase.next, w.db);
    }
  }

  /** Another run can only take the lead by committing the next migration itself. */
  lemma OtherActs(newest: seq<int>, w: World, leader: nat, pid: nat)
    requires WellFormed(newest) && Inv(newest, w) && Leads(newest, w, leader)
    requires pid in w.runs && pid != leader && w.runs[pid].known == |newest|
    ensures var w' := StepRun(newest, w, pid, false);
            Leads(newest, w', leader) || Leads(newest, w', pid)
  {
    assert RunOk(newest, w, leader);
    assert RunOk(newest, w, pid);
    var w' := StepRun(newest, w, pid, false);
    assert w'.runs[leader] == w.runs[leader];
    if w'.db.ledger != w.db.ledger {
      assert Leads(newest, w', pid);
    }
  }

  lemma BinariesStayTheSame(newest: seq<int>, w: World, a: Action)
    requires FaultFree(newest, [a]) && SameBinary(newest, w)
    ensures SameBinary(newest, Apply(newest, w, a))
  {
    assert [a][0] == a;
  }

  lemma NextLeader(newest: seq<int>, w: World, a: Action, leader: nat) returns (next: nat)
    requires WellFormed(newest) && Inv(newest, w) && FaultFree(newest, [a])
    requires SameBinary(newest, w) && Leads(newest, w, leader)
    ensures Leads(newest, Apply(newest, w, a), next)
  {
    assert [a][0] == a;
    next := leader;
    if a.Step? && a.pid == leader {
      LeaderActs(newest, w, leader);
    } else if a.Step? && a.pid in w.runs {
      OtherActs(newest, w, leader, a.pid);
      if !Leads(newest, Apply(newest, w, a), leader) {
        next := a.pid;
      }
    }
  }

  lemma LedStep(newest: seq<int>, start: Db, w: World, a: Action, leader: nat)
    requires WellFormed(newest) && Inv(newest, w) && FaultFree(newest, [a])
    requires Evolves(newest, start, w.db)
    requires SameBinary(newest, w)
    requires w.db.ledger != start.ledger && Leads(newest, w, leader)
    ensures Progressing(newest, start, Apply(newest, w, a))
  {
    ApplyKeepsInv(newest, w, a);
    BinariesStayTheSame(newest, w, a);
    var next := NextLeader(newest, w, a, leader);
  }

  lemma {:induction false} FaultFreeRunsProgress(newest: seq<int>, db: Db, actions: seq<Action>)
    requires WellFormed(newest) && Consistent(newest, db) && FaultFree(newest, actions)
    ensures Progressing(newest, db, Execute(newest, db, actions))
    decreases |actions|
  {
    if actions != [] {
      var front, a := actions[..|actions| - 1], actions[|actions| - 1];
      var w := Execute(newest, db, front);
      assert forall i :: 0 <= i < |front| ==> front[i] == actions[i];
      FaultFreeRunsProgress(newest, db, front);
      AllRunsKeepInv(newest, db, front);
      assert actions[|actions| - 1] == a;
      assert FaultFree(newest, [a]);
      if w.db.ledger == db.ledger {
        UntroubledStep(newest, db, w, a);
      } else {
        var leader :| Leads(newest, w, leader);
        LedStep(newest, db, w, a, leader);
      }
    }
  }

  /** Completion over every interleaving: when runs of one binary all end and the
      only aborts were ledger-key conflicts, the ledger is full and some run
      reported success, however the others lost. */
  lemma SomebodySucceeds(newest: seq<int>, db: Db, actions: seq<Action>)
    requires WellFormed(newest) && Consistent(newest, db) && FaultFree(newest, actions)
    requires AllDone(Execute(newest, db, actions)) && Execute(newest, db, actions).runs != map[]
    ensures
      var w := Execute(newest, db, actions);
      && w.db.ledger == newest
      && exists pid :: pid in w.runs && w.runs[pid].phase == Done(Success)
  {
    var w := Execute(newest, db, actions);
    FaultFreeRunsProgress(newest, db, actions);
    AllRunsKeepInv(newest, db, actions);
    var pid: nat;
    if w.db.ledger == db.ledger {
      pid :| pid in w.runs;
      assert Untroubled(newest, w, pid);
    } else {
      pid :| Leads(newest, w, pid);
    }
    assert w.runs[pid].phase == Done(Success) && RunOk(newest, w, pid);
  }

  // ------------------------------------------------------------------
  // The health check's version test
  // ------------------------------------------------------------------

  /** Health check: the highest recorded version against the binary's own highest. */
  predicate VersionTest(list: seq<int>, db: Db) {
    Highest(db.ledger) == Highest(list)
  }

  /** In every reachable state, comparing the two maxima is as good as comparing
      the whole ledger with the binary's list. */
  lemma VersionTestIsExact(newest: seq<int>, db: Db, actions: seq<Action>, known: nat)
    requires WellFormed(newest) && Consistent(newest, db)
    requires 0 < known <= |newest|
    ensures
      var now := Execute(newest, db, actions).db;
      VersionTest(newest[..known], now) <==> now.ledger == now.scripts == newest[..known]
  {
    var now := Execute(newest, db, actions).db;
    AllRunsKeepInv(newest, db, actions);
    HighestOfPrefix(newest, known);
    HighestOfPrefix(newest, |now.ledger|);
    assert now.ledger == newest[..|now.ledger|];
  }

  /** The test is not enough by itself: a ledger with a gap passes it. */
  lemma VersionTestMissesGaps()
    ensures VersionTest([1, 2], Db(true, [2], [2]))
    ensures !Consistent([1, 2], Db(true, [2], [2]))
  {
    assert [2][..1] == [2] && [1, 2][..1] == [1];
    assert Highest([1]) == 1;
    assert Highest([2]) == 2;
    assert [2][0] != [1, 2][0];
  }
}
