/**
  The agent's lifecycle: start-up in stages, each undone in reverse order, a run
  loop, and a shutdown that hands the database to a closing goroutine and may give up
  waiting for it.

  There are two threads, the one running Run and the closing one. Between any two of
  its own steps the first yields, and the closing thread may take any number of steps;
  so the schedules of the environment are all interleavings of the two. Cancellation,
  like a fault, may come at any step.
  */
module Lifecycle {
  import opened Shared

  /** Everything the run cannot decide for itself, by the number of the step: when
      cancellation comes, which steps fail, how far the closing thread gets, how many
      heartbeats the loop handles, whether shutdown gives up waiting, and whether closing
      the database fails. */
  datatype Environment = Environment(
    cancelAt: nat,
    fault: Faults,
    closerSteps: nat -> nat,
    heartbeats: nat,
    gaveUp: bool,
    closeFails: bool)

  datatype Thread = Main | Closer

  /** The observable life of the database handle and the PID file. */
  datatype Event =
    | Acquire
    | Abandon              // closed by Open itself because opening failed
    | Use
    | Close(who: Thread)
    | WritePid
    | RemovePid

  /** How far the closing goroutine has come; it has either found the handle or not. */
  datatype Closing =
    | NotStarted
    | Starting
    | Swapped(found: bool)
    | Releasing
    | Finished(ok: bool)

  datatype Wait = ClosedCleanly | CloseFailed | GaveUp

  /** The way Run ended. */
  datatype Exit =
    | CancelledBeforeStart
    | InvalidEnvironment
    | PrepareFailed(cancelled: bool)
    | OpenFailed(cancelled: bool)
    | PidFailed
    | Served(wait: Wait)

  /** The exits after which Run reports no error. */
  predicate Clean(exit: Exit) {
    match exit
    case CancelledBeforeStart => true
    case PrepareFailed(cancelled) => cancelled
    case OpenFailed(cancelled) => cancelled
    case Served(wait) => wait == ClosedCleanly
    case _ => false
  }

  /** The start-up steps, by number: 1 the environment, 2 the data directory, 3 the database
      path, 4 to 9 opening the database, where 5 is the driver, and 10 the PID file. */
  const STEPS: nat := 10

  /** The first start-up step that fails, counted from operation `at`. */
  ghost function FirstFailure(env: Environment, at: nat): nat {
    FirstFault(env.fault, at + 1, at + STEPS + 1) - at
  }

  /** The way a run started at operation `at` ends: by the first start-up step that fails,
      and by whether a stop had been requested by then. */
  ghost function ExitOf(env: Environment, at: nat): Exit {
    var step := FirstFailure(env, at);
    var stopping := env.cancelAt <= at + step + 1;
    if env.cancelAt <= at then CancelledBeforeStart
    else if step == 1 then InvalidEnvironment
    else if step == 2 then PrepareFailed(stopping)
    else if step <= 9 then OpenFailed(stopping)
    else if step == 10 then PidFailed
    else Serving(env)
  }

  function Serving(env: Environment): Exit {
    Served(if env.gaveUp then GaveUp else if env.closeFails then CloseFailed else ClosedCleanly)
  }

  /** Whether the run gets as far as holding the database, and as writing the PID file. */
  ghost predicate Acquires(env: Environment, at: nat) {
    env.cancelAt > at && FirstFailure(env, at) > 5
  }

  ghost predicate WritesPid(env: Environment, at: nat) {
    env.cancelAt > at && FirstFailure(env, at) > 10
  }

  /** Where the database handle is. Only one thread can have it, and nobody once it
      is gone. */
  datatype Place = Unopened | BeingOpened | InField | With(thread: Thread) | Closed(who: Thread) | Abandoned

  predicate Ends(e: Event) {
    e.Close? || e.Abandon?
  }

  /** What a trace says of the handle; Broken once it is misused. */
  datatype Fate = Fresh | Live | Gone(last: Event) | Broken

  function Advance(f: Fate, e: Event): Fate {
    match e
    case WritePid => f
    case RemovePid => f
    case Acquire => if f == Fresh then Live else Broken
    case Use => if f == Live then Live else Broken
    case _ => if f == Live then Gone(e) else Broken
  }

  function Scan(trace: seq<Event>): Fate {
    if trace == [] then Fresh else Advance(Scan(trace[..|trace| - 1]), trace[|trace| - 1])
  }

  /** What a trace says of the PID file; Pending while its removal has not been tried. */
  datatype PidState = NeverWritten | Pending | Cleared

  function PidAfter(p: PidState, e: Event): PidState {
    match e
    case WritePid => Pending
    case RemovePid => if p == Pending then Cleared else p
    case _ => p
  }

  function Pid(trace: seq<Event>): PidState {
    if trace == [] then NeverWritten else PidAfter(Pid(trace[..|trace| - 1]), trace[|trace| - 1])
  }

  /** How often the handle was used: once when it was opened, once for each heartbeat. */
  function Uses(trace: seq<Event>): nat {
    if trace == [] then 0
    else Uses(trace[..|trace| - 1]) + if trace[|trace| - 1] == Use then 1 else 0
  }

  lemma {:induction false} UsesAreCounted(trace: seq<Event>)
    ensures Uses(trace) == multiset(trace)[Use]
    decreases |trace|
  {
    if trace != [] {
      UsesAreCounted(trace[..|trace| - 1]);
      assert trace == trace[..|trace| - 1] + [trace[|trace| - 1]];
    }
  }

  /** Run's own close of the database never comes while the PID file's removal is due. */
  predicate Unwound(trace: seq<Event>) {
    if trace == [] then true
    else
      var front := trace[..|trace| - 1];
      Unwound(front) && (trace[|trace| - 1] == Close(Main) ==> Pid(front) != Pending)
  }

  lemma ScanStep(trace: seq<Event>, e: Event)
    ensures Scan(trace + [e]) == Advance(Scan(trace), e)
    ensures Pid(trace + [e]) == PidAfter(Pid(trace), e)
    ensures Uses(trace + [e]) == Uses(trace) + if e == Use then 1 else 0
    ensures Unwound(trace + [e]) == (Unwound(trace) && (e == Close(Main) ==> Pid(trace) != Pending))
  {
    assert (trace + [e])[..|trace + [e]| - 1] == trace;
  }

  /** The handle is closed at most once, and not used before it is acquired or after
      it is closed. */
  ghost predicate WellUsed(trace: seq<Event>) {
    && (forall i, j :: 0 <= i < j < |trace| && Ends(trace[i]) ==> !Ends(trace[j]) && trace[j] != Use)
    && (forall j :: 0 <= j < |trace| && (Ends(trace[j]) || trace[j] == Use) ==> Acquire in trace[..j])
  }

  /** Every PID file written has had its removal attempted afterwards. */
  ghost predicate PidCleared(trace: seq<Event>) {
    forall i :: 0 <= i < |trace| && trace[i] == WritePid ==> RemovePid in trace[i + 1..]
  }

  lemma {:induction false} ScanKnowsTheEnd(trace: seq<Event>)
    requires Scan(trace) != Broken
    ensures Scan(trace) == Fresh <==> Acquire !in trace
    ensures Scan(trace).Gone? <==> exists e :: e in trace && Ends(e)
    ensures forall e :: e in trace && Ends(e) ==> Scan(trace) == Gone(e)
    decreases |trace|
  {
    if trace != [] {
      var front, last := trace[..|trace| - 1], trace[|trace| - 1];
      assert trace == front + [last];
      ScanKnowsTheEnd(front);
      if Ends(last) {
        assert last in trace;
      }
    }
  }

  lemma WellUsedGrows(trace: seq<Event>, e: Event)
    requires WellUsed(trace)
    requires Ends(e) || e == Use ==> Acquire in trace && forall d :: d in trace ==> !Ends(d)
    ensures WellUsed(trace + [e])
  {
    var longer := trace + [e];
    forall j | 0 <= j < |longer| && (Ends(longer[j]) || longer[j] == Use)
      ensures Acquire in longer[..j]
    {
      assert longer[..j] == trace[..j];
      assert trace[..|trace|] == trace;
    }
    forall i, j | 0 <= i < j < |longer| && Ends(longer[i])
      ensures !Ends(longer[j]) && longer[j] != Use
    {
      assert longer[i] == trace[i] && trace[i] in trace;
    }
  }

  /** A trace whose scan is not broken uses its handle well, and the scan tells whether
      and how the handle has been closed. */
  lemma {:induction false} ScanIsSound(trace: seq<Event>)
    requires Scan(trace) != Broken
    ensures WellUsed(trace)
    ensures Scan(trace) == Fresh <==> Acquire !in trace
    ensures Scan(trace).Gone? <==> exists e :: e in trace && Ends(e)
    ensures forall e :: e in trace && Ends(e) ==> Scan(trace) == Gone(e)
    decreases |trace|
  {
    ScanKnowsTheEnd(trace);
    if trace != [] {
      var front, last := trace[..|trace| - 1], trace[|trace| - 1];
      assert trace == front + [last];
      ScanIsSound(front);
      WellUsedGrows(front, last);
    }
  }

  ghost predicate ClosedExactlyOnce(trace: seq<Event>) {
    exists i :: 0 <= i < |trace| && Ends(trace[i]) && forall j :: 0 <= j < |trace| && j != i ==> !Ends(trace[j])
  }

  lemma GoneIsClosedOnce(trace: seq<Event>)
    requires Scan(trace).Gone?
    ensures ClosedExactlyOnce(trace)
  {
    ScanIsSound(trace);
    var e :| e in trace && Ends(e);
    var i :| 0 <= i < |trace| && trace[i] == e;
    forall j | 0 <= j < |trace| && j != i
      ensures !Ends(trace[j])
    {
    }
  }

  lemma {:induction false} PidIsSound(trace: seq<Event>)
    ensures PidCleared(trace) <==> Pid(trace) != Pending
    ensures WritePid in trace <==> Pid(trace) != NeverWritten
    decreases |trace|
  {
    if trace != [] {
      var front, last := trace[..|trace| - 1], trace[|trace| - 1];
      assert trace == front + [last];
      PidIsSound(front);
      forall i | 0 <= i < |front| && front[i] == WritePid
        ensures RemovePid in trace[i + 1..] <==> RemovePid in front[i + 1..] || last == RemovePid
      {
        assert trace[i + 1..] == front[i + 1..] + [last];
      }
      assert trace[|front| + 1..] == [];
      assert trace[|front|] == last;
      if PidCleared(trace) && last != RemovePid {
        forall i | 0 <= i < |front| && front[i] == WritePid
          ensures RemovePid in front[i + 1..]
        {
          assert trace[i] == WritePid;
        }
      }
    }
  }

  /** Whenever Run itself closes the database, every PID file written before has had its
      removal attempted before: the cleanups run in reverse order of what they undo. */
  ghost predicate ReverseOrder(trace: seq<Event>) {
    forall j :: 0 <= j < |trace| && trace[j] == Close(Main) ==> PidCleared(trace[..j])
  }

  lemma {:induction false} UnwoundIsReverseOrder(trace: seq<Event>)
    ensures Unwound(trace) <==> ReverseOrder(trace)
    decreases |trace|
  {
    if trace != [] {
      var front, last := trace[..|trace| - 1], trace[|trace| - 1];
      UnwoundIsReverseOrder(front);
      PidIsSound(front);
      forall j | 0 <= j < |front|
        ensures trace[..j] == front[..j] && trace[j] == front[j]
      {
      }
      if ReverseOrder(trace) {
        assert forall j :: 0 <= j < |front| && front[j] == Close(Main) ==> PidCleared(front[..j]) by {
          forall j | 0 <= j < |front| && front[j] == Close(Main)
            ensures PidCleared(front[..j])
          {
            assert trace[j] == Close(Main);
          }
        }
      }
    }
  }

  /** What can become of the handle while Run waits and then, perhaps, takes it. */
  predicate Settles(before: Place, after: Place, taken: bool) {
    match before
    case InField => taken || after == With(Closer) || after == Closed(Closer)
    case With(Closer) => after == before || after == Closed(Closer)
    case _ => after == before
  }

  function FateOf(place: Place): Fate {
    match place
    case Unopened => Fresh
    case Closed(who) => Gone(Close(who))
    case Abandoned => Gone(Abandon)
    case _ => Live
  }

  class Agent {
    const env: Environment
    var clock: nat
    var handle: bool           // the field holding the open database
    var closing: Closing
    ghost var place: Place
    ghost var trace: seq<Event>

    constructor (env: Environment)
      ensures this.env == env && Valid() && trace == []
      ensures place == Unopened && closing == NotStarted
    {
      this.env := env;
      clock, handle, closing := 0, false, NotStarted;
      place, trace := Unopened, [];
    }

    /** The fields and the trace agree with the one place the handle is in. */
    ghost predicate Valid()
      reads this
    {
      && Scan(trace) == FateOf(place) && Unwound(trace)
      && (place == Closed(Closer) && closing.Finished? ==> closing.ok == !env.closeFails)
      && (handle <==> place == InField)
      && (closing == Swapped(true) <==> place == With(Closer))
      && (closing == Releasing ==> place == Closed(Closer))
      && (place == InField ==> closing == NotStarted || closing == Starting)
      && (place == Closed(Closer) ==> closing == Releasing || closing.Finished?)
    }

    predicate Cancelled()
      reads this
    {
      clock >= env.cancelAt
    }

    // ----------------------------------------------------------------
    // The closing thread
    // ----------------------------------------------------------------

    ghost method Record(e: Event)
      modifies this`trace
      ensures trace == old(trace) + [e]
      ensures Scan(trace) == Advance(Scan(old(trace)), e)
      ensures Pid(trace) == PidAfter(Pid(old(trace)), e)
      ensures Uses(trace) == Uses(old(trace)) + if e == Use then 1 else 0
      ensures Unwound(trace) == (Unwound(old(trace)) && (e == Close(Main) ==> Pid(old(trace)) != Pending))
    {
      ScanStep(trace, e);
      trace := trace + [e];
    }

    /** One step of closeStorage on the closing goroutine: take the handle out of the
        field, close it if it was there, report. */
    method StepCloser()
      requires Valid() && closing != NotStarted
      modifies this`handle, this`closing, this`place, this`trace
      ensures Valid() && closing != NotStarted
      ensures old(Rank()) > 0 ==> Rank() < old(Rank())
      ensures old(closing).Finished? ==> closing == old(closing)
      ensures old(place) == InField ==> place == InField || place == With(Closer)
      ensures old(place) == With(Closer) ==> place == Closed(Closer)
      ensures old(place) != InField && old(place) != With(Closer) ==> place == old(place)
      ensures Pid(trace) == Pid(old(trace)) && Uses(trace) == Uses(old(trace))
      ensures trace == old(trace) || old(place) == With(Closer)
    {
      match closing
      case Starting =>
        closing := Swapped(handle);
        if handle {
          handle, place := false, With(Closer);
        }
      case Swapped(found) =>
        if found {
          Record(Close(Closer));
          closing, place := Releasing, Closed(Closer);
        } else {
          closing := Finished(true);
        }
      case Releasing =>
        closing := Finished(!env.closeFails);
      case Finished(_) =>
    }

    function Rank(): nat
      reads this
    {
      match closing
      case NotStarted => 4
      case Starting => 3
      case Swapped(found) => if found then 2 else 1
      case Releasing => 1
      case Finished(_) => 0
    }

    /** What the closing thread can have done between two steps of the other. */
    twostate predicate Elapsed()
      reads this
    {
      && Valid()
      && (old(closing) == NotStarted ==>
            closing == NotStarted && trace == old(trace) && place == old(place) && handle == old(handle))
      && (old(closing) != NotStarted ==> closing != NotStarted)
      && (old(place) == InField ==> place == InField || place == With(Closer) || place == Closed(Closer))
      && (old(place) == With(Closer) ==> place == With(Closer) || place == Closed(Closer))
      && (old(place) != InField && old(place) != With(Closer) ==> place == old(place))
      && Pid(trace) == Pid(old(trace)) && Uses(trace) == Uses(old(trace))
      && (old(closing).Finished? ==> closing == old(closing))
    }

    /** Lets time pass: the closing thread, if there is one, takes some steps. */
    method Yield()
      requires Valid()
      modifies this
      ensures Elapsed() && clock > old(clock)
    {
      clock := clock + 1;
      var steps := env.closerSteps(clock);
      while steps > 0 && closing != NotStarted
        invariant Elapsed()
        invariant clock == old(clock) + 1
      {
        StepCloser();
        steps := steps - 1;
      }
    }

    /** A start-up step, before the closing thread exists: nothing else can happen. */
    method AttemptAlone() returns (ok: bool)
      requires closing == NotStarted
      modifies this`clock
      ensures clock == old(clock) + 1 && ok == !env.fault(clock)
    {
      clock := clock + 1;
      ok := !env.fault(clock);
    }

    // ----------------------------------------------------------------
    // Opening and closing
    // ----------------------------------------------------------------

    /** storage.Open: nothing is acquired before the driver opens, and every step that
        fails after that closes what was acquired. */
    method Open() returns (ok: bool)
      requires Valid() && place == Unopened && closing == NotStarted
      modifies this
      ensures Valid() && closing == NotStarted && !handle
      ensures
        var first := FirstFault(env.fault, old(clock) + 1, old(clock) + 7);
        && (ok <==> first == old(clock) + 7)
        && clock == (if ok then old(clock) + 6 else first)
        && place == (if ok then BeingOpened else if first <= old(clock) + 2 then Unopened else Abandoned)
      ensures place == Unopened ==> trace == old(trace)
      ensures Pid(trace) == Pid(old(trace)) && Uses(trace) == Uses(old(trace))
    {
      ok := AttemptAlone();       // arguments and the parent directory
      if !ok {
        return;
      }
      ok := AttemptAlone();       // the driver
      if !ok {
        return;
      }
      FirstFaultAfter(env.fault, clock - 1, clock + 1, clock + 5);
      ok := Connect();
    }

    /** Acquires the driver's handle, which any later failure closes again. */
    method Connect() returns (ok: bool)
      requires Valid() && place == Unopened && closing == NotStarted
      modifies this
      ensures Valid() && closing == NotStarted
      ensures
        var first := FirstFault(env.fault, old(clock) + 1, old(clock) + 5);
        ok == (first == old(clock) + 5) && clock == if ok then old(clock) + 4 else first
      ensures place == if ok then BeingOpened else Abandoned
      ensures Pid(trace) == Pid(old(trace)) && Uses(trace) == Uses(old(trace))
    {
      Acquired();
      ok := Prepare();
      if !ok {
        GivenBack();
      }
    }

    ghost method Acquired()
      requires Valid() && place == Unopened && closing == NotStarted
      modifies this`place, this`trace
      ensures Valid() && place == BeingOpened
      ensures Pid(trace) == Pid(old(trace)) && Uses(trace) == Uses(old(trace))
    {
      Record(Acquire);
      place := BeingOpened;
    }

    ghost method GivenBack()
      requires Valid() && place == BeingOpened && closing == NotStarted
      modifies this`place, this`trace
      ensures Valid() && place == Abandoned
      ensures Pid(trace) == Pid(old(trace)) && Uses(trace) == Uses(old(trace))
    {
      Record(Abandon);
      place := Abandoned;
    }

    /** First connection, pragmas, permissions and migrations. */
    method Prepare() returns (ok: bool)
      requires closing == NotStarted
      modifies this`clock
      ensures
        var first := FirstFault(env.fault, old(clock) + 1, old(clock) + 5);
        ok == (first == old(clock) + 5) && clock == if ok then old(clock) + 4 else first
    {
      ok := AttemptAlone();       // first connection
      if ok {
        ok := AttemptAlone();     // pragmas
      }
      if ok {
        ok := AttemptAlone();     // permissions
      }
      if ok {
        ok := AttemptAlone();     // migrations
      }
    }

    method OpenStorage() returns (ok: bool)
      requires Valid() && place == Unopened && closing == NotStarted
      modifies this
      ensures Valid() && closing == NotStarted
      ensures
        var first := FirstFault(env.fault, old(clock) + 1, old(clock) + 8);
        && (ok <==> first == old(clock) + 8)
        && clock == (if ok then old(clock) + 7 else first)
        && place == (if ok then InField else if first <= old(clock) + 3 then Unopened else Abandoned)
      ensures place == Unopened ==> trace == old(trace)
      ensures Pid(trace) == Pid(old(trace)) && Uses(trace) == Uses(old(trace)) + if ok then 1 else 0
    {
      ok := AttemptAlone();       // the database path
      if !ok {
        return;
      }
      ok := Open();
      if !ok {
        return;
      }
      handle, place := true, InField;
      Record(Use);           // reading the version back; a failure is only logged
    }

    method TakeHandle() returns (found: bool)
      requires Valid() && place != BeingOpened && place != With(Main)
      modifies this`handle, this`place
      ensures Valid() && place != InField
      ensures found == (old(place) == InField)
      ensures place == if found then With(Main) else old(place)
    {
      found := handle;
      if found {
        handle, place := false, With(Main);
      }
    }

    method CloseTaken()
      requires Valid() && place == With(Main)
      requires Pid(trace) != Pending
      modifies this`place, this`trace
      ensures Valid() && place == Closed(Main) && Pid(trace) == Pid(old(trace)) && Uses(trace) == Uses(old(trace))
    {
      Record(Close(Main));
      place := Closed(Main);
    }

    method WaitAndTake() returns (found: bool)
      requires Valid() && place != BeingOpened && place != With(Main)
      modifies this
      ensures Valid() && place != InField && place != BeingOpened
      ensures found <==> place == With(Main)
      ensures old(closing) == NotStarted ==> closing == NotStarted && found == (old(place) == InField)
      ensures Settles(old(place), place, found)
      ensures old(closing).Finished? ==> closing == old(closing)
      ensures Pid(trace) == Pid(old(trace)) && Uses(trace) == Uses(old(trace))
    {
      Yield();
      found := TakeHandle();
    }

    method WaitAndClose(found: bool)
      requires Valid() && place != InField && place != BeingOpened && (found <==> place == With(Main))
      requires Pid(trace) != Pending
      modifies this
      ensures Valid() && place != With(Main)
      ensures old(closing) == NotStarted ==> closing == NotStarted
      ensures if found then place == Closed(Main) else Settles(old(place), place, false)
      ensures old(closing).Finished? ==> closing == old(closing)
      ensures Pid(trace) == Pid(old(trace)) && Uses(trace) == Uses(old(trace))
    {
      Yield();
      if found {
        CloseTaken();
      }
    }

    /** closeStorage as Run's own cleanup: takes the handle if it is still there. */
    method CloseStorage()
      requires Valid() && place != BeingOpened && place != With(Main)
      requires Pid(trace) != Pending
      modifies this
      ensures Valid() && place != InField && place != BeingOpened && place != With(Main)
      ensures old(closing) == NotStarted ==> closing == NotStarted
      ensures old(place) == InField && old(closing) == NotStarted ==> place == Closed(Main)
      ensures if old(place) == InField then place.Closed? || place == With(Closer)
              else Settles(old(place), place, false)
      ensures old(closing).Finished? ==> closing == old(closing)
      ensures Pid(trace) == Pid(old(trace)) && Uses(trace) == Uses(old(trace))
    {
      var found := WaitAndTake();
      WaitAndClose(found);
    }

    // ----------------------------------------------------------------
    // Serving
    // ----------------------------------------------------------------

    /** Checks the database, if it is there. */
    method Heartbeat()
      requires Valid() && place == InField && closing == NotStarted
      modifies this`clock, this`trace
      ensures Valid() && place == InField && closing == NotStarted
      ensures Pid(trace) == Pid(old(trace)) && Uses(trace) == Uses(old(trace)) + 1
    {
      var found := handle;
      clock := clock + 1;
      if found {
        Record(Use);
      }
    }

    /** Starts the closing goroutine and waits for it, but not for ever. */
    method Shutdown() returns (wait: Wait)
      requires Valid() && place == InField && closing == NotStarted
      modifies this
      ensures Valid() && closing != NotStarted
      ensures Pid(trace) == Pid(old(trace)) && Uses(trace) == Uses(old(trace))
      ensures place == InField || place == With(Closer) || place == Closed(Closer)
      ensures wait != GaveUp ==> place == Closed(Closer) && closing == Finished(wait == ClosedCleanly)
      ensures Served(wait) == Serving(env)
    {
      closing := Starting;
      label Started:
      Yield();
      if env.gaveUp {
        return GaveUp;
      }
      while !closing.Finished?
        invariant Valid() && closing != NotStarted
        invariant place == InField || place == With(Closer) || place == Closed(Closer)
        invariant Pid(trace) == Pid(old(trace)) && Uses(trace) == Uses(old(trace))
        decreases Rank()
      {
        StepCloser();
      }
      wait := if closing.ok then ClosedCleanly else CloseFailed;
    }

    /** Handles heartbeats until the context is cancelled, then shuts down. */
    method Serve() returns (wait: Wait)
      requires Valid() && place == InField && closing == NotStarted
      modifies this
      ensures Valid() && closing != NotStarted
      ensures Pid(trace) == Pid(old(trace)) && Uses(trace) == Uses(old(trace)) + env.heartbeats
      ensures place == InField || place == With(Closer) || place == Closed(Closer)
      ensures wait != GaveUp ==> place == Closed(Closer) && closing == Finished(wait == ClosedCleanly)
      ensures Served(wait) == Serving(env)
    {
      for k := 0 to env.heartbeats
        invariant Valid() && place == InField && closing == NotStarted
        invariant Pid(trace) == Pid(old(trace)) && Uses(trace) == Uses(old(trace)) + k
      {
        Heartbeat();
      }
      if clock < env.cancelAt {
        clock := env.cancelAt;
      }
      wait := Shutdown();
    }

    /** Where a run that ended as `exit` leaves the handle: it never had it, has closed it,
        or has left it to the closing goroutine. */
    ghost predicate Left(exit: Exit, acquired: bool)
      reads this
    {
      match exit
      case OpenFailed(_) => place == if acquired then Abandoned else Unopened
      case PidFailed => place == Closed(Main)
      case Served(GaveUp) => place.Closed? || place == With(Closer)
      case Served(wait) => place == Closed(Closer) && closing == Finished(wait == ClosedCleanly)
      case _ => place == Unopened && trace == []
    }

    /** Start-up, serving and unwinding. */
    method Run() returns (ok: bool)
      requires Valid() && trace == [] && place == Unopened && closing == NotStarted
      modifies this
      ensures Valid()
      // which steps fail and when cancellation comes decide the exit, and no error is
      // reported exactly for a requested stop and a close that succeeded in time
      ensures ok <==> Clean(ExitOf(env, old(clock)))
      // that is: for a stop before the start, one by the time a step from the second to the
      // ninth had failed, or a close in time that did not fail
      ensures
        var first := FirstFault(env.fault, old(clock) + 1, old(clock) + 11);
        ok <==> || env.cancelAt <= old(clock)
                || (old(clock) + 2 <= first <= old(clock) + 9 && env.cancelAt <= first + 1)
                || (first == old(clock) + 11 && !env.gaveUp && !env.closeFails)
      ensures Left(ExitOf(env, old(clock)), Acquires(env, old(clock)))
      ensures Acquire in trace <==> Acquires(env, old(clock))
      ensures WritePid in trace <==> WritesPid(env, old(clock))
      // the version is read once when the database is opened, and every heartbeat is handled
      ensures
        var first := FirstFault(env.fault, old(clock) + 1, old(clock) + 11);
        multiset(trace)[Use] == if env.cancelAt <= old(clock) || first <= old(clock) + 9 then 0
                                else if first == old(clock) + 10 then 1 else 1 + env.heartbeats
      // closed at most once, never used afterwards; the PID file's removal was attempted,
      // and before Run's own close
      ensures WellUsed(trace) && PidCleared(trace) && ReverseOrder(trace)
    {
      if Cancelled() {
        ok := true;
      } else {
        ok := RunStages();
      }
      UsesAreCounted(trace);
      ScanIsSound(trace);
      PidIsSound(trace);
      UnwoundIsReverseOrder(trace);
    }

    /** The stages once no stop has been requested before the start. */
    method RunStages() returns (ok: bool)
      requires Valid() && trace == [] && place == Unopened && closing == NotStarted && !Cancelled()
      modifies this
      ensures Valid() && ok == Clean(ExitOf(env, old(clock)))
      ensures Left(ExitOf(env, old(clock)), Acquires(env, old(clock)))
      ensures Pid(trace) == if WritesPid(env, old(clock)) then Cleared else NeverWritten
      ensures
        var step := FirstFailure(env, old(clock));
        Uses(trace) == if step < STEPS then 0 else if step == STEPS then 1 else 1 + env.heartbeats
    {
      ok := AttemptAlone();              // validate the environment
      if !ok {
        return;
      }
      ok := AttemptAlone();              // prepare the data directory
      if !ok {
        clock := clock + 1;
        return Cancelled();
      }
      ok := OpenStorage();
      if !ok {
        clock := clock + 1;
        return Cancelled();
      }
      ok := Live();
    }

    /** With the database open: the PID file, serving, and the cleanups. */
    method Live() returns (ok: bool)
      requires Valid() && place == InField && closing == NotStarted && Pid(trace) == NeverWritten
      modifies this
      ensures Valid() && ok == (!env.fault(old(clock) + 1) && Clean(Serving(env)))
      ensures if env.fault(old(clock) + 1) then
                Left(PidFailed, true) && Pid(trace) == NeverWritten && Uses(trace) == Uses(old(trace))
              else
                Left(Serving(env), true) && Pid(trace) == Cleared && Uses(trace) == Uses(old(trace)) + env.heartbeats
    {
      ok := AttemptAlone();              // write the PID file
      if !ok {
        CloseStorage();
        return;
      }
      var wait := ServeAndUnwind();
      ok := wait == ClosedCleanly;
    }

    /** From the PID file on: whatever comes, its removal is attempted and then the
        database closed, unless the closing goroutine has it. */
    method ServeAndUnwind() returns (wait: Wait)
      requires Valid() && place == InField && closing == NotStarted
      modifies this
      ensures Valid() && Pid(trace) == Cleared && Uses(trace) == Uses(old(trace)) + env.heartbeats
      ensures place.Closed? || place == With(Closer)
      ensures wait != GaveUp ==> place == Closed(Closer) && closing == Finished(wait == ClosedCleanly)
      ensures Served(wait) == Serving(env)
    {
      Record(WritePid);
      wait := Serve();
      Record(RemovePid);                 // a failed removal is only logged
      CloseStorage();
    }

    /** Lets the closing goroutine finish after Run has returned. If the database was
        ever opened, it has then been closed exactly once. */
    method FinishClosing()
      requires Valid() && place != InField && place != BeingOpened && place != With(Main)
      modifies this
      ensures Valid() && (closing == NotStarted || closing.Finished?)
      ensures WellUsed(trace)
      ensures Acquire in trace ==> ClosedExactlyOnce(trace)
    {
      while closing != NotStarted && !closing.Finished?
        invariant Valid() && place != InField && place != BeingOpened && place != With(Main)
        decreases Rank()
      {
        StepCloser();
      }
      assert !place.With? by {
        if place.With? {
          match place.thread
          case Main =>
          case Closer =>
        }
      }
      ScanIsSound(trace);
      if Acquire in trace {
        GoneIsClosedOnce(trace);
      }
    }
  }
}
