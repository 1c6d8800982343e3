/**
  Pairing, revocation and challenge authentication, as processes that share the
  identity tables interleave them.

  Pairing commits in one step. Revoking is two: marking the device and writing the
  audit row. Issuing a challenge reads the device and then stores the challenge;
  verifying takes the challenge, reads the device, and then checks the signature. Any
  number of other steps may fall in between, any database step may fail, and a process
  may stop at any point. Challenge ids are random and assumed never to repeat.
  */
module Authentication {
  import opened Shared
  import opened Pairing
  import opened Registry

  const CHALLENGE_LIFETIME: int := 2 * 60 * SECOND

  /** A challenge as stored, and as issued. */
  datatype Challenge = Challenge(device: string, value: Bytes, expires: int)
  datatype Issue = Issue(device: string, value: Bytes, made: int)

  function Stored(issue: Issue): Challenge {
    Challenge(issue.device, issue.value, issue.made + CHALLENGE_LIFETIME)
  }

  /** What a call in progress remembers between its steps. */
  datatype Task =
    | Revoking(device: string)
    | Challenging(device: string, now: int)
    | Verifying(id: string, challenge: Challenge, signature: Bytes, now: int)
    | Checking(id: string, challenge: Challenge, signature: Bytes, now: int, read: Device, readAt: nat)

  /** A call to verify that returned success, having read `read` after `readAt` steps. */
  datatype Success = Success(id: string, signature: Bytes, now: int, read: Device, readAt: nat)

  /** The shared tables, the panel's challenges, the calls in progress, and the history. */
  datatype World = World(
    store: Store, open: map<string, Challenge>, tasks: map<nat, Task>,
    issued: map<string, Issue>, consumed: set<string>, lost: set<string>,
    successes: seq<Success>, past: seq<Store>)

  datatype Action =
    | Pair(token: string, at: int, faults: StatementFaults, logged: bool)
    | RevokeMark(task: nat, device: string, fault: bool)
    | RevokeAudit(task: nat, at: int, fault: bool)
    | ChallengeRead(task: nat, device: string, at: int, fault: bool, logged: bool)
    | ChallengeStore(task: nat, id: string, value: Bytes, fault: bool)
    | VerifyTake(task: nat, id: string, signature: Bytes, at: int, logged: bool)
    | VerifyRead(task: nat, fault: bool, logged: bool)
    | VerifyCheck(task: nat, logged: bool)
    | Abandon(task: nat)
    | RestartPanel

  function Log(w: World, logged: bool, entry: Entry): World {
    w.(store := MaybeAudited(w.store, logged, entry))
  }

  function EndTask(w: World, task: nat): (after: World)
    ensures ChallengesNobody(w, after)
    ensures LeavesChallenges(w, after)
  {
    w.(tasks := w.tasks - {task})
  }

  /** A step outside pairing and revoking: it adds at most one row, to the audit, and no
      call that owes a revocation row. */
  ghost predicate OnlyAudits(w: World, after: World) {
    && (after.store == w.store || AddsOtherRow(w.store, after.store))
    && NoNewDebts(w, after)
  }

  predicate HasTaken(task: Task) {
    task.Verifying? || task.Checking?
  }

  /** A step that has nothing to do with challenges once they are issued. */
  ghost predicate LeavesChallenges(w: World, after: World) {
    && after.open == w.open && after.issued == w.issued && after.consumed == w.consumed && after.lost == w.lost
    && after.successes == w.successes && after.past == w.past
    && (forall t :: t in after.tasks && HasTaken(after.tasks[t]) ==> t in w.tasks && w.tasks[t] == after.tasks[t])
  }

  ghost predicate NoNewDebts(w: World, after: World) {
    forall t :: t in after.tasks && after.tasks[t].Revoking? ==> t in w.tasks && w.tasks[t] == after.tasks[t]
  }

  /** A step that neither issues a challenge nor starts a call that will. */
  ghost predicate ChallengesNobody(w: World, after: World) {
    && after.issued == w.issued
    && (forall t :: t in after.tasks && after.tasks[t].Challenging? ==> t in w.tasks && w.tasks[t] == after.tasks[t])
  }

  ghost predicate AddsOtherRow(store: Store, after: Store) {
    && after.audit != []
    && var entry := after.audit[|after.audit| - 1];
       && entry.event != PairingSucceeded && entry.event != DeviceRevoked
       && after == Audited(store, entry)
  }

  function RevokeMarkStep(w: World, task: nat, device: string, fault: bool): (after: World)
    ensures ChallengesNobody(w, after)
    ensures LeavesChallenges(w, after)
  {
    if task in w.tasks || fault || !IsActive(w.store, device) then w
    else w.(store := Mark(w.store, device), tasks := w.tasks[task := Revoking(device)])
  }

  function RevokeAuditStep(w: World, task: nat, at: int, fault: bool): (after: World)
    ensures ChallengesNobody(w, after)
    ensures LeavesChallenges(w, after)
  {
    if task in w.tasks && w.tasks[task].Revoking?
      then Log(EndTask(w, task), !fault, Entry(DeviceRevoked, w.tasks[task].device, true, at))
      else w
  }

  function ChallengeReadStep(w: World, task: nat, device: string, at: int, fault: bool, logged: bool): (after: World)
    ensures LeavesChallenges(w, after)
    ensures OnlyAudits(w, after)
  {
    if task in w.tasks then w
    else if fault || !IsActive(w.store, device)
      then Log(w, logged, Entry(AuthenticationFailure, device, false, at))
      else w.(tasks := w.tasks[task := Challenging(device, at)])
  }

  function ChallengeStoreStep(w: World, task: nat, id: string, value: Bytes, fault: bool): (after: World)
    ensures OnlyAudits(w, after)
  {
    if task !in w.tasks || !w.tasks[task].Challenging? || id in w.issued then w
    else if fault then EndTask(w, task)
    else
      var issue := Issue(w.tasks[task].device, value, w.tasks[task].now);
      EndTask(w, task).(open := w.open[id := Stored(issue)], issued := w.issued[id := issue])
  }

  function VerifyTakeStep(w: World, task: nat, id: string, signature: Bytes, at: int, logged: bool): (after: World)
    ensures ChallengesNobody(w, after)
    ensures OnlyAudits(w, after)
  {
    if task in w.tasks then w
    else if id !in w.open then Log(w, logged, Entry(ChallengeRejected, "", false, at))
    else
      var challenge := w.open[id];
      var taken := w.(open := w.open - {id}, consumed := w.consumed + {id});
      if at >= challenge.expires then Log(taken, logged, Entry(ChallengeRejected, challenge.device, false, at))
      else taken.(tasks := w.tasks[task := Verifying(id, challenge, signature, at)])
  }

  function VerifyReadStep(w: World, task: nat, fault: bool, logged: bool): (after: World)
    ensures ChallengesNobody(w, after)
    ensures OnlyAudits(w, after)
  {
    if task !in w.tasks || !w.tasks[task].Verifying? then w
    else
      var Verifying(id, challenge, signature, now) := w.tasks[task];
      if fault || !IsActive(w.store, challenge.device)
        then Log(EndTask(w, task), logged, Entry(AuthenticationFailure, challenge.device, false, now))
        else
          var device := w.store.devices[challenge.device];
          w.(tasks := w.tasks[task := Checking(id, challenge, signature, now, device, |w.past|)])
  }

  function VerifyCheckStep(lib: Library, w: World, task: nat, logged: bool): (after: World)
    ensures ChallengesNobody(w, after)
    ensures OnlyAudits(w, after)
  {
    if task !in w.tasks || !w.tasks[task].Checking? then w
    else
      var Checking(id, challenge, signature, now, device, readAt) := w.tasks[task];
      if !lib.verify(device.key, challenge.value, signature)
        then Log(EndTask(w, task), logged, Entry(AuthenticationFailure, challenge.device, false, now))
        else
          Log(EndTask(w, task), logged, Entry(LoginSuccess, challenge.device, true, now))
            .(successes := w.successes + [Success(id, signature, now, device, readAt)])
  }

  /** The panel stops and starts again: its challenges and calls are gone. */
  function Restarted(w: World): World {
    w.(open := map[], lost := w.lost + w.open.Keys,
       tasks := map t | t in w.tasks && w.tasks[t].Revoking? :: w.tasks[t])
  }

  /** An action that is not enabled changes nothing. */
  function Act(lib: Library, w: World, a: Action): World {
    match a
    case Pair(token, at, faults, logged) => w.(store := Replace(lib, w.store, token, at, faults, logged).store)
    case RevokeMark(task, device, fault) => RevokeMarkStep(w, task, device, fault)
    case RevokeAudit(task, at, fault) => RevokeAuditStep(w, task, at, fault)
    case ChallengeRead(task, device, at, fault, logged) => ChallengeReadStep(w, task, device, at, fault, logged)
    case ChallengeStore(task, id, value, fault) => ChallengeStoreStep(w, task, id, value, fault)
    case VerifyTake(task, id, signature, at, logged) => VerifyTakeStep(w, task, id, signature, at, logged)
    case VerifyRead(task, fault, logged) => VerifyReadStep(w, task, fault, logged)
    case VerifyCheck(task, logged) => VerifyCheckStep(lib, w, task, logged)
    case Abandon(task) => EndTask(w, task)
    case RestartPanel => Restarted(w)
  }

  /** Adds the tables a step started from to the history. */
  function Remember(w: World, after: World): World {
    after.(past := w.past + [w.store])
  }

  function Apply(lib: Library, w: World, a: Action): World {
    Remember(w, Act(lib, w, a))
  }

  function Execute(lib: Library, start: Store, actions: seq<Action>): World {
    if actions == [] then World(start, map[], map[], map[], {}, {}, [], [])
    else Apply(lib, Execute(lib, start, actions[..|actions| - 1]), actions[|actions| - 1])
  }

  // ------------------------------------------------------------------
  // The tables
  // ------------------------------------------------------------------

  /** A call that marked a device still owes its audit row, and nobody else does. */
  ghost predicate RevocationsOwed(w: World) {
    && (forall t :: t in w.tasks && w.tasks[t].Revoking? ==>
          && IsRevoked(w.store, w.tasks[t].device)
          && w.tasks[t].device !in Named(w.store.audit, DeviceRevoked))
    && (forall t, u :: t in w.tasks && u in w.tasks && t != u && w.tasks[t].Revoking? && w.tasks[u].Revoking? ==>
          w.tasks[t].device != w.tasks[u].device)
  }

  ghost predicate PastEvolves(past: seq<Store>, store: Store) {
    forall k :: 0 <= k < |past| ==> Consistent(past[k]) && Evolves(past[k], store)
  }

  ghost predicate TablesOk(w: World) {
    Consistent(w.store) && RevocationsOwed(w) && PastEvolves(w.past, w.store)
  }

  lemma AuditsOnTables(w: World, after: World)
    requires Consistent(w.store) && OnlyAudits(w, after)
    ensures Evolves(w.store, after.store)
    ensures Named(after.store.audit, DeviceRevoked) == Named(w.store.audit, DeviceRevoked)
  {
    if after.store != w.store {
      AuditingEvolves(w.store, after.store.audit[|after.store.audit| - 1]);
    }
  }

  lemma OwedLasts(w: World, after: World)
    requires RevocationsOwed(w) && DevicesEvolve(w.store, after.store)
    requires Named(after.store.audit, DeviceRevoked) == Named(w.store.audit, DeviceRevoked)
    requires NoNewDebts(w, after)
    ensures RevocationsOwed(after)
  {
  }

  lemma MarkOwes(w: World, task: nat, device: string)
    requires RevocationsAgree(w.store) && RevocationsOwed(w)
    requires task !in w.tasks && IsActive(w.store, device)
    ensures RevocationsOwed(RevokeMarkStep(w, task, device, false))
  {
    assert device !in Named(w.store.audit, DeviceRevoked);
  }

  lemma MarkStepOnTables(w: World, task: nat, device: string, fault: bool)
    requires Consistent(w.store) && RevocationsOwed(w)
    ensures Evolves(w.store, RevokeMarkStep(w, task, device, fault).store)
    ensures RevocationsOwed(RevokeMarkStep(w, task, device, fault))
  {
    if task !in w.tasks && !fault && IsActive(w.store, device) {
      MarkEvolves(w.store, device);
      MarkOwes(w, task, device);
    }
  }

  lemma AuditStepOnTables(w: World, task: nat, at: int, fault: bool)
    requires Consistent(w.store) && RevocationsOwed(w)
    ensures Evolves(w.store, RevokeAuditStep(w, task, at, fault).store)
    ensures RevocationsOwed(RevokeAuditStep(w, task, at, fault))
  {
    if task in w.tasks && w.tasks[task].Revoking? {
      AuditingRevocationEvolves(w.store, w.tasks[task].device, at);
    }
  }

  /** Apart from revoking, a step changes neither the revocation rows nor the calls that
      owe one. */
  lemma OtherStepsOnTables(lib: Library, w: World, a: Action)
    requires Consistent(w.store) && !a.RevokeMark? && !a.RevokeAudit?
    ensures Evolves(w.store, Act(lib, w, a).store)
    ensures Named(Act(lib, w, a).store.audit, DeviceRevoked) == Named(w.store.audit, DeviceRevoked)
    ensures NoNewDebts(w, Act(lib, w, a))
  {
    if a.Pair? {
      ReplaceEvolves(lib, w.store, a.token, a.at, a.faults, a.logged);
    } else {
      assert OnlyAudits(w, Act(lib, w, a));
      AuditsOnTables(w, Act(lib, w, a));
    }
  }

  lemma ActOnTables(lib: Library, w: World, a: Action)
    requires Consistent(w.store) && RevocationsOwed(w)
    ensures Evolves(w.store, Act(lib, w, a).store)
    ensures RevocationsOwed(Act(lib, w, a))
  {
    match a
    case RevokeMark(task, device, fault) => MarkStepOnTables(w, task, device, fault);
    case RevokeAudit(task, at, fault) => AuditStepOnTables(w, task, at, fault);
    case _ =>
      OtherStepsOnTables(lib, w, a);
      OwedLasts(w, Act(lib, w, a));
  }

  lemma TablesStep(lib: Library, w: World, a: Action)
    requires TablesOk(w)
    ensures TablesOk(Apply(lib, w, a))
    ensures Evolves(w.store, Apply(lib, w, a).store)
  {
    ActOnTables(lib, w, a);
    PastStillEvolves(w.past, w.store, Act(lib, w, a).store);
  }

  lemma PastStillEvolves(past: seq<Store>, store: Store, after: Store)
    requires PastEvolves(past, store) && Consistent(store) && Evolves(store, after)
    ensures PastEvolves(past + [store], after)
  {
    forall k | 0 <= k < |past|
      ensures Evolves(past[k], after)
    {
      EvolvesTransitive(past[k], store, after);
    }
  }

  // ------------------------------------------------------------------
  // Challenges
  // ------------------------------------------------------------------

  /** Every challenge issued is still open, was taken once, or was lost in a restart. */
  ghost predicate ChallengesAddUp(w: World) {
    && w.issued.Keys == w.open.Keys + w.consumed + w.lost
    && w.open.Keys !! w.consumed && w.open.Keys !! w.lost && w.consumed !! w.lost
    && (forall id :: id in w.open ==> w.open[id] == Stored(w.issued[id]))
  }

  /** A call that has taken a challenge took it in time, and it alone can succeed with it. */
  ghost predicate TakenOk(w: World, task: Task)
    requires HasTaken(task)
  {
    && task.id in w.consumed && task.id in w.issued && task.challenge == Stored(w.issued[task.id])
    && task.now < task.challenge.expires
    && (forall s :: s in w.successes ==> s.id != task.id)
    && (task.Checking? ==> ReadOk(w, task.challenge.device, task.read, task.readAt))
  }

  ghost predicate ReadOk(w: World, id: string, device: Device, readAt: nat) {
    readAt < |w.past| && IsActive(w.past[readAt], id) && w.past[readAt].devices[id] == device
  }

  ghost predicate SuccessOk(lib: Library, w: World, s: Success) {
    && s.id in w.consumed && s.id in w.issued
    && s.now < w.issued[s.id].made + CHALLENGE_LIFETIME
    && ReadOk(w, w.issued[s.id].device, s.read, s.readAt)
    && lib.verify(s.read.key, w.issued[s.id].value, s.signature)
  }

  ghost predicate CallsOk(w: World) {
    && (forall t :: t in w.tasks && HasTaken(w.tasks[t]) ==> TakenOk(w, w.tasks[t]))
    && (forall t, u :: t in w.tasks && u in w.tasks && t != u && HasTaken(w.tasks[t]) && HasTaken(w.tasks[u]) ==>
          w.tasks[t].id != w.tasks[u].id)
  }

  ghost predicate SuccessesOk(lib: Library, w: World) {
    && (forall s :: s in w.successes ==> SuccessOk(lib, w, s))
    && (forall i, j :: 0 <= i < j < |w.successes| ==> w.successes[i].id != w.successes[j].id)
  }

  ghost predicate ChallengesOk(lib: Library, w: World) {
    ChallengesAddUp(w) && CallsOk(w) && SuccessesOk(lib, w)
  }

  /** The history only grows: what was issued, taken and read stays so. */
  ghost predicate Grows(w: World, w': World) {
    && w.consumed <= w'.consumed
    && (forall id :: id in w.issued ==> id in w'.issued && w'.issued[id] == w.issued[id])
    && w.past <= w'.past
  }

  lemma StoringAddsUp(w: World, task: nat, id: string, value: Bytes, fault: bool)
    requires ChallengesAddUp(w)
    ensures ChallengesAddUp(ChallengeStoreStep(w, task, id, value, fault))
  {
  }

  lemma TakingAddsUp(w: World, task: nat, id: string, signature: Bytes, at: int, logged: bool)
    requires ChallengesAddUp(w)
    ensures ChallengesAddUp(VerifyTakeStep(w, task, id, signature, at, logged))
  {
  }

  /** What was sound stays sound as the history grows, while no new success uses it. */
  lemma SoundnessLasts(lib: Library, w: World, w': World)
    requires ChallengesOk(lib, w) && Grows(w, w')
    ensures forall s :: s in w.successes ==> SuccessOk(lib, w', s)
    ensures w'.successes == w.successes ==>
              forall t :: t in w.tasks && HasTaken(w.tasks[t]) ==> TakenOk(w', w.tasks[t])
  {
    forall t | t in w.tasks && HasTaken(w.tasks[t])
      ensures w'.successes == w.successes ==> TakenOk(w', w.tasks[t])
    {
      assert TakenOk(w, w.tasks[t]);
    }
    forall s | s in w.successes
      ensures SuccessOk(lib, w', s)
    {
      assert SuccessOk(lib, w, s);
    }
  }

  lemma StoreStepOk(lib: Library, w: World, task: nat, id: string, value: Bytes, fault: bool)
    requires ChallengesOk(lib, w)
    ensures ChallengesOk(lib, Remember(w, ChallengeStoreStep(w, task, id, value, fault)))
  {
    var after := ChallengeStoreStep(w, task, id, value, fault);
    StoringAddsUp(w, task, id, value, fault);
    SoundnessLasts(lib, w, Remember(w, after));
  }

  /** Taking an open challenge in time: the taker is the only one who can succeed with it. */
  lemma TakingIsSound(lib: Library, w: World, after: World, task: nat, id: string, signature: Bytes, at: int)
    requires ChallengesOk(lib, w)
    requires task !in w.tasks && id in w.open && at < w.open[id].expires
    requires Grows(w, after) && after.successes == w.successes && id in after.consumed
    requires after.tasks == w.tasks[task := Verifying(id, w.open[id], signature, at)]
    ensures CallsOk(after)
  {
    SoundnessLasts(lib, w, after);
    forall s | s in w.successes
      ensures s.id != id
    {
      assert SuccessOk(lib, w, s);
    }
    assert TakenOk(after, after.tasks[task]);
  }

  lemma TakeStepOk(lib: Library, w: World, task: nat, id: string, signature: Bytes, at: int, logged: bool)
    requires ChallengesOk(lib, w)
    ensures ChallengesOk(lib, Remember(w, VerifyTakeStep(w, task, id, signature, at, logged)))
  {
    var after := Remember(w, VerifyTakeStep(w, task, id, signature, at, logged));
    TakingAddsUp(w, task, id, signature, at, logged);
    SoundnessLasts(lib, w, after);
    if task !in w.tasks && id in w.open && at < w.open[id].expires {
      TakingIsSound(lib, w, after, task, id, signature, at);
    }
  }

  lemma ReadingIsSound(lib: Library, w: World, after: World, task: nat)
    requires ChallengesOk(lib, w)
    requires task in w.tasks && w.tasks[task].Verifying? && IsActive(w.store, w.tasks[task].challenge.device)
    requires Grows(w, after) && after.successes == w.successes && after.past == w.past + [w.store]
    requires
      var Verifying(id, challenge, signature, now) := w.tasks[task];
      after.tasks == w.tasks[task := Checking(id, challenge, signature, now, w.store.devices[challenge.device], |w.past|)]
    ensures CallsOk(after)
  {
    SoundnessLasts(lib, w, after);
    assert TakenOk(w, w.tasks[task]);
    assert after.past[|w.past|] == w.store;
    assert TakenOk(after, after.tasks[task]);
  }

  lemma ReadStepOk(lib: Library, w: World, task: nat, fault: bool, logged: bool)
    requires ChallengesOk(lib, w)
    ensures ChallengesOk(lib, Remember(w, VerifyReadStep(w, task, fault, logged)))
  {
    var step := VerifyReadStep(w, task, fault, logged);
    if task in w.tasks && w.tasks[task].Verifying? && !fault && IsActive(w.store, w.tasks[task].challenge.device) {
      SoundnessLasts(lib, w, Remember(w, step));
      ReadingIsSound(lib, w, Remember(w, step), task);
    } else {
      QuietStepOk(lib, w, step);
    }
  }

  lemma SucceedingIsSound(lib: Library, w: World, after: World, task: nat, s: Success)
    requires ChallengesOk(lib, w) && task in w.tasks && w.tasks[task].Checking?
    requires
      var Checking(id, challenge, signature, now, read, readAt) := w.tasks[task];
      && lib.verify(read.key, challenge.value, signature)
      && s == Success(id, signature, now, read, readAt)
    requires Grows(w, after) && after.successes == w.successes + [s] && after.tasks == w.tasks - {task}
    ensures CallsOk(after) && SuccessesOk(lib, after)
  {
    assert TakenOk(w, w.tasks[task]);
    SoundnessLasts(lib, w, after);
    assert SuccessOk(lib, after, s);
    forall t | t in after.tasks && HasTaken(after.tasks[t])
      ensures TakenOk(after, after.tasks[t])
    {
      assert TakenOk(w, w.tasks[t]) && w.tasks[t].id != s.id;
    }
  }

  lemma CheckStepOk(lib: Library, w: World, task: nat, logged: bool)
    requires ChallengesOk(lib, w)
    ensures ChallengesOk(lib, Remember(w, VerifyCheckStep(lib, w, task, logged)))
  {
    var step := VerifyCheckStep(lib, w, task, logged);
    if task in w.tasks && w.tasks[task].Checking?
       && lib.verify(w.tasks[task].read.key, w.tasks[task].challenge.value, w.tasks[task].signature) {
      SucceedingIsSound(lib, w, Remember(w, step), task, step.successes[|w.successes|]);
    } else {
      QuietStepOk(lib, w, step);
    }
  }

  /** The check adds one success, or none, as the signature verifies or not. */
  lemma CheckDecides(lib: Library, w: World, task: nat, logged: bool)
    requires task in w.tasks && w.tasks[task].Checking?
    ensures
      var Checking(id, challenge, signature, now, read, readAt) := w.tasks[task];
      VerifyCheckStep(lib, w, task, logged).successes
      == w.successes + if lib.verify(read.key, challenge.value, signature)
                       then [Success(id, signature, now, read, readAt)] else []
  {
  }

  lemma RestartOk(lib: Library, w: World)
    requires ChallengesOk(lib, w)
    ensures ChallengesOk(lib, Remember(w, Restarted(w)))
  {
    SoundnessLasts(lib, w, Remember(w, Restarted(w)));
  }

  lemma QuietStepOk(lib: Library, w: World, after: World)
    requires ChallengesOk(lib, w) && LeavesChallenges(w, after)
    ensures ChallengesOk(lib, Remember(w, after))
  {
    SoundnessLasts(lib, w, Remember(w, after));
  }

  lemma ChallengesStep(lib: Library, w: World, a: Action)
    requires ChallengesOk(lib, w)
    ensures ChallengesOk(lib, Apply(lib, w, a))
  {
    match a
    case ChallengeStore(task, id, value, fault) => StoreStepOk(lib, w, task, id, value, fault);
    case VerifyTake(task, id, signature, at, logged) => TakeStepOk(lib, w, task, id, signature, at, logged);
    case VerifyRead(task, fault, logged) => ReadStepOk(lib, w, task, fault, logged);
    case VerifyCheck(task, logged) => CheckStepOk(lib, w, task, logged);
    case RestartPanel => RestartOk(lib, w);
    case _ => QuietStepOk(lib, w, Act(lib, w, a));
  }

  // ------------------------------------------------------------------
  // All runs
  // ------------------------------------------------------------------

  lemma {:induction false} AllRunsKeepInv(lib: Library, start: Store, actions: seq<Action>)
    requires Consistent(start)
    ensures TablesOk(Execute(lib, start, actions))
    ensures ChallengesOk(lib, Execute(lib, start, actions))
    ensures Evolves(start, Execute(lib, start, actions).store)
    decreases |actions|
  {
    if actions != [] {
      var front, a := actions[..|actions| - 1], actions[|actions| - 1];
      var w := Execute(lib, start, front);
      AllRunsKeepInv(lib, start, front);
      TablesStep(lib, w, a);
      EvolvesTransitive(start, w.store, Apply(lib, w, a).store);
      ChallengesStep(lib, w, a);
    }
  }

  lemma OneMoreAction(lib: Library, start: Store, actions: seq<Action>, a: Action)
    ensures Execute(lib, start, actions + [a]) == Apply(lib, Execute(lib, start, actions), a)
    ensures Execute(lib, start, actions + [a]).past
            == Execute(lib, start, actions).past + [Execute(lib, start, actions).store]
  {
    assert (actions + [a])[..|actions|] == actions;
  }

  /** The recorded past is the run's own: entry k is the tables after k actions. */
  lemma {:induction false} PastIsHistory(lib: Library, start: Store, actions: seq<Action>, k: nat)
    requires k < |actions|
    ensures |Execute(lib, start, actions).past| == |actions|
    ensures Execute(lib, start, actions).past[k] == Execute(lib, start, actions[..k]).store
    decreases |actions|
  {
    var front, last := actions[..|actions| - 1], actions[|actions| - 1];
    OneMoreAction(lib, start, front, last);
    assert front + [last] == actions;
    if k < |front| {
      PastIsHistory(lib, start, front, k);
      assert front[..k] == actions[..k];
    } else if front != [] {
      PastIsHistory(lib, start, front, 0);
    }
  }
}
