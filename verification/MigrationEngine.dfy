/**
  The migration engine as the database handle runs it: a handle with mutable
  state, loops over the migration list, and one transaction per migration.

  Other processes share the file. Before each step of this run they may move the
  database to any state that committed steps can reach; that this is all they can
  do is what ApplyKeepsInv in Migrations shows for every step of every process.
  */
module MigrationEngine {
  import opened Migrations

  /** What other processes commit between two steps of this run. */
  datatype Interference = Interference(creates: bool, commits: nat)

  /** For each step of a run: does it fail, and what happened just before it. */
  datatype Environment = Environment(fault: nat -> bool, others: nat -> Interference)

  function Interfere(newest: seq<int>, db: Db, i: Interference): (after: Db)
    requires |db.ledger| <= |newest|
    ensures |after.ledger| <= |newest|
  {
    if i.commits == 0 then Db(db.ledgerTable || i.creates, db.ledger, db.scripts)
    else
      var upTo := if i.commits <= |newest| - |db.ledger| then |db.ledger| + i.commits else |newest|;
      Db(true, newest[..upTo], newest[..upTo])
  }

  lemma InterferenceIsEvolution(newest: seq<int>, before: Db, after: Db)
    requires WellFormed(newest) && Consistent(newest, before)
    ensures Evolves(newest, before, after) <==> exists i :: Interfere(newest, before, i) == after
  {
    if Evolves(newest, before, after) {
      var i := Interference(after.ledgerTable, |after.ledger| - |before.ledger|);
      assert after.ledger == newest[..|after.ledger|];
      assert before.ledger == newest[..|before.ledger|];
      assert Interfere(newest, before, i) == after;
    }
    if i :| Interfere(newest, before, i) == after {
      assert before.ledger == newest[..|before.ledger|];
    }
  }

  /** Interference is exactly what the steps of other processes can do to the file: it
      covers every run of theirs, and each instance of it is what some run does. */
  lemma InterferenceIsWhatRunsDo(newest: seq<int>, before: Db, after: Db)
    requires WellFormed(newest) && Consistent(newest, before)
    ensures (exists i :: Interfere(newest, before, i) == after)
            <==> exists actions :: Execute(newest, before, actions).db == after
  {
    InterferenceIsEvolution(newest, before, after);
    if actions :| Execute(newest, before, actions).db == after {
      AllRunsKeepInv(newest, before, actions);
    }
    if Evolves(newest, before, after) {
      var actions := EvolutionIsReached(newest, before, after);
    }
  }

  datatype Result = Applied | ReadOnlyHandle | NewerSchema | Interrupted

  /** Nothing fails and no other process touches the file. */
  ghost predicate Alone(env: Environment) {
    && (forall n :: !env.fault(n))
    && (forall n :: env.others(n) == Interference(false, 0))
  }

  /** The highest version a binary knows. */
  method SchemaVersion(list: seq<int>) returns (highest: int)
    requires WellFormed(list)
    ensures highest == list[|list| - 1]
    ensures highest == Highest(list)
  {
    highest := 0;
    for k := 0 to |list|
      invariant highest == if k == 0 then 0 else list[k - 1]
    {
      if list[k] > highest {
        highest := list[k];
      }
    }
    assert list[..|list|] == list;
    HighestOfPrefix(list, |list|);
  }

  /** Of two prefixes of the newest list, the longer has the higher version. */
  lemma LongerIsHigher(list: seq<int>, newest: seq<int>, recorded: nat)
    requires WellFormed(list) && WellFormed(newest) && list <= newest && recorded <= |newest|
    ensures (if recorded == 0 then 0 else newest[recorded - 1]) > list[|list| - 1] <==> |list| < recorded
  {
    assert list[|list| - 1] == newest[|list| - 1];
  }

  /** A read-write or read-only handle on the shared database file. `newest` is the
      longest migration list of any binary that opens the file. */
  class Handle {
    const readOnly: bool
    const newest: seq<int>
    const env: Environment
    var ledgerTable: bool
    var ledger: seq<int>
    var scripts: seq<int>
    var clock: nat

    constructor (readOnly: bool, newest: seq<int>, env: Environment, db: Db)
      ensures this.readOnly == readOnly && this.newest == newest && this.env == env
      ensures State() == db && clock == 0
    {
      this.readOnly, this.newest, this.env := readOnly, newest, env;
      ledgerTable, ledger, scripts := db.ledgerTable, db.ledger, db.scripts;
      clock := 0;
    }

    function State(): Db
      reads this
    {
      Db(ledgerTable, ledger, scripts)
    }

    ghost predicate Valid()
      reads this
    {
      WellFormed(newest) && Consistent(newest, State())
    }

    method Yield() returns (fault: bool)
      requires Valid()
      modifies this
      ensures Valid() && Evolves(newest, old(State()), State())
      ensures State() == Interfere(newest, old(State()), env.others(old(clock)))
      ensures fault == env.fault(old(clock)) && clock == old(clock) + 1
      ensures Alone(env) ==> !fault && State() == old(State())
    {
      var db := Interfere(newest, State(), env.others(clock));
      InterferenceIsEvolution(newest, State(), db);
      fault := env.fault(clock);
      clock := clock + 1;
      ledgerTable, ledger, scripts := db.ledgerTable, db.ledger, db.scripts;
    }

    method EnsureLedger() returns (ok: bool)
      requires Valid()
      modifies this
      ensures Valid() && Evolves(newest, old(State()), State())
      ensures ok ==> ledgerTable
      ensures ok == !env.fault(old(clock)) && clock == old(clock) + 1
      ensures
        var found := Interfere(newest, old(State()), env.others(old(clock)));
        State() == if ok then CreateLedger(found) else found
      ensures Alone(env) ==> ok && State() == CreateLedger(old(State()))
    {
      var fault := Yield();
      if fault {
        return false;
      }
      ledgerTable := true;
      ok := true;
    }

    /** The versions recorded at the moment of the read, gathered row by row. */
    method AppliedVersions() returns (ok: bool, applied: set<int>)
      requires Valid()
      modifies this
      ensures Valid() && Evolves(newest, old(State()), State())
      ensures ok ==> applied == Elements(ledger)
      ensures ok == !env.fault(old(clock)) && clock == old(clock) + 1
      ensures State() == Interfere(newest, old(State()), env.others(old(clock)))
      ensures Alone(env) ==> ok && State() == old(State())
    {
      var fault := Yield();
      if fault {
        return false, {};
      }
      applied := {};
      for k := 0 to |ledger|
        invariant applied == Elements(ledger[..k])
      {
        assert ledger[..k + 1] == ledger[..k] + [ledger[k]];
        applied := applied + {ledger[k]};
      }
      assert ledger[..|ledger|] == ledger;
      ok := true;
    }

    /** The highest recorded version at the moment of the read. */
    method CurrentVersion() returns (ok: bool, version: int)
      requires Valid()
      modifies this
      ensures Valid() && Evolves(newest, old(State()), State())
      ensures ok == !env.fault(old(clock)) && clock == old(clock) + 1
      ensures State() == Interfere(newest, old(State()), env.others(old(clock)))
      ensures ok ==> version == if ledger == [] then 0 else newest[|ledger| - 1]
      ensures Alone(env) ==> ok && State() == old(State())
    {
      var fault := Yield();
      ok, version := !fault, Highest(ledger);
      HighestOfPrefix(newest, |ledger|);
      assert ledger == newest[..|ledger|];
    }

    /** A step inside a transaction: the write lock keeps other processes out. */
    method Attempt() returns (ok: bool)
      modifies this`clock
      ensures Alone(env) ==> ok
    {
      ok := !env.fault(clock);
      clock := clock + 1;
    }

    /** One migration and its ledger entry, on a working copy that only a commit
        makes visible; every other way out drops it. */
    method ApplyMigration(list: seq<int>, i: nat) returns (ok: bool)
      requires Valid() && list <= newest
      requires i < |list| && i <= |ledger|
      modifies this
      ensures Valid() && Evolves(newest, old(State()), State())
      ensures ok ==> i < |ledger|
      ensures Alone(env) ==> ok == (i == |old(ledger)|)
      ensures Alone(env) ==> State() == if ok then Migrated(list, i, old(State())) else old(State())
    {
      var fault := Yield();
      if fault {
        return false;
      }
      var work := State();
      UnrecordedIsNext(newest, i, work);
      ok := Attempt();
      if !ok {
        return;
      }
      work := RunScript(list, i, work);
      ok := Attempt();
      if !ok || list[i] in work.ledger {
        return false;
      }
      work := Record(work, list[i]);
      ok := Attempt();
      if !ok {
        return;
      }
      MigratedEvolves(newest, i, State());
      ledgerTable, ledger, scripts := work.ledgerTable, work.ledger, work.scripts;
    }

    /** Applies every migration the database has not recorded. Whatever happens
        between the steps, the file stays consistent; success means that all of
        `list` is recorded; and alone on the file the outcome is exact. */
    method Migrate(list: seq<int>) returns (outcome: Result)
      requires Valid() && WellFormed(list) && list <= newest
      modifies this
      ensures Valid() && Evolves(newest, old(State()), State())
      ensures readOnly <==> outcome == ReadOnlyHandle
      ensures readOnly ==> State() == old(State())
      ensures outcome == Applied ==> list <= ledger
      ensures outcome == NewerSchema ==> list < ledger
      // refused exactly when the ledger is longer than the list at the third step, the
      // reading of the highest version, whatever others did until then
      ensures
        var step := old(clock);
        var created := CreateLedger(Interfere(newest, old(State()), env.others(step)));
        var snapshot := Interfere(newest, created, env.others(step + 1));
        var highest := Interfere(newest, snapshot, env.others(step + 2));
        outcome == NewerSchema <==>
          && !readOnly && !env.fault(step) && !env.fault(step + 1) && !env.fault(step + 2)
          && |list| < |highest.ledger|
      ensures Alone(env) && !readOnly ==>
                if |list| < |old(ledger)|
                then outcome == NewerSchema && State() == CreateLedger(old(State()))
                else outcome == Applied && State() == Db(true, list, list)
    {
      if readOnly {
        return ReadOnlyHandle;
      }
      var ok := EnsureLedger();
      if !ok {
        return Interrupted;
      }
      var applied: set<int>;
      ok, applied := AppliedVersions();
      if !ok {
        return Interrupted;
      }
      ghost var snapshot := ledger;
      var current: int;
      ok, current := CurrentVersion();
      if !ok {
        return Interrupted;
      }
      var known := SchemaVersion(list);
      LongerIsHigher(list, newest, |ledger|);
      if current > known {
        return NewerSchema;
      }
      ok := ApplyMissing(list, applied, snapshot);
      outcome := if ok then Applied else Interrupted;
    }

    /** The loop over the list, skipping what was recorded when `applied` was read. */
    method ApplyMissing(list: seq<int>, applied: set<int>, ghost snapshot: seq<int>) returns (ok: bool)
      requires Valid() && WellFormed(list) && list <= newest
      requires applied == Elements(snapshot) && snapshot <= ledger
      modifies this
      ensures Valid() && Evolves(newest, old(State()), State())
      ensures ok ==> list <= ledger
      ensures Alone(env) && old(ledgerTable) && snapshot == old(ledger) && |snapshot| <= |list| ==>
                ok && State() == Db(true, list, list)
    {
      ghost var alone := Alone(env) && ledgerTable && snapshot == ledger && |snapshot| <= |list|;
      for k := 0 to |list|
        invariant Valid() && Evolves(newest, old(State()), State())
        invariant k <= |ledger| && snapshot <= ledger
        invariant alone ==> ledgerTable && |ledger| == if k <= |snapshot| then |snapshot| else k
      {
        UnrecordedIsNext(newest, k, State());
        assert list[k] in applied ==> list[k] in ledger;
        if list[k] in applied {
          continue;
        }
        ok := ApplyMigration(list, k);
        if !ok {
          return;
        }
      }
      ok := true;
    }
  }
}
