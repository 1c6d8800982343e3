/**
  What every interleaving of pairing, revocation and authentication guarantees, and
  two things that separate steps do not.
  */
module PairingRuns {
  import opened Shared
  import opened Pairing
  import opened Registry
  import opened Authentication

  lemma TablesAtAnyTime(lib: Library, start: Store, actions: seq<Action>)
    requires Consistent(start)
    ensures Consistent(Execute(lib, start, actions).store)
    ensures RevocationsOwed(Execute(lib, start, actions))
  {
    AllRunsKeepInv(lib, start, actions);
  }

  // ------------------------------------------------------------------
  // Challenges
  // ------------------------------------------------------------------

  /** Every successful verification answers its own challenge, in time, with a signature
      that verifies under the key of a device that had been paired and was active when
      the call read it, whatever else ran in between. */
  lemma EverySuccessIsJustified(lib: Library, start: Store, actions: seq<Action>, i: nat)
    requires Consistent(start) && i < |Execute(lib, start, actions).successes|
    ensures
      var w := Execute(lib, start, actions);
      var s := w.successes[i];
      && s.id in w.issued && s.id in w.consumed && s.readAt < |actions|
      && var issue, seen := w.issued[s.id], Execute(lib, start, actions[..s.readAt]).store;
         && IsActive(seen, issue.device)
         && issue.device in Named(seen.audit, PairingSucceeded)
         && lib.verify(seen.devices[issue.device].key, issue.value, s.signature)
         && s.now < issue.made + CHALLENGE_LIFETIME
         && issue.device in w.store.devices
         && w.store.devices[issue.device].key == seen.devices[issue.device].key
    ensures forall j :: 0 <= j < |Execute(lib, start, actions).successes| && j != i ==>
              Execute(lib, start, actions).successes[j].id != Execute(lib, start, actions).successes[i].id
  {
    var w := Execute(lib, start, actions);
    var s := w.successes[i];
    AllRunsKeepInv(lib, start, actions);
    assert SuccessOk(lib, w, s);
    assert |w.past| == |actions| by {
      if actions != [] {
        PastIsHistory(lib, start, actions, 0);
      }
    }
    PastIsHistory(lib, start, actions, s.readAt);
    assert Consistent(w.past[s.readAt]) && Evolves(w.past[s.readAt], w.store);
  }

  /** Every challenge issued is still open, was taken exactly once, or went with a restart. */
  lemma ChallengesBalance(lib: Library, start: Store, actions: seq<Action>)
    requires Consistent(start)
    ensures
      var w := Execute(lib, start, actions);
      && w.issued.Keys == w.open.Keys + w.consumed + w.lost
      && |w.issued| == |w.open| + |w.consumed| + |w.lost|
      && ((forall a :: a in actions ==> !a.RestartPanel?) ==> w.lost == {})
  {
    AllRunsKeepInv(lib, start, actions);
    if forall a :: a in actions ==> !a.RestartPanel? {
      OnlyRestartsLose(lib, start, actions);
    }
    var w := Execute(lib, start, actions);
    assert |w.open.Keys + w.consumed| == |w.open| + |w.consumed|;
    assert |w.open.Keys + w.consumed + w.lost| == |w.open| + |w.consumed| + |w.lost|;
  }

  lemma {:induction false} OnlyRestartsLose(lib: Library, start: Store, actions: seq<Action>)
    requires forall a :: a in actions ==> !a.RestartPanel?
    ensures Execute(lib, start, actions).lost == {}
    decreases |actions|
  {
    if actions != [] {
      var front, a := actions[..|actions| - 1], actions[|actions| - 1];
      OnlyRestartsLose(lib, start, front);
      StepLosesNothing(lib, Execute(lib, start, front), a);
    }
  }

  lemma StepLosesNothing(lib: Library, w: World, a: Action)
    requires !a.RestartPanel?
    ensures Act(lib, w, a).lost == w.lost
  {
  }

  /** A challenge that was taken, for whatever outcome, gets nobody any further. */
  lemma ReplayGoesNowhere(lib: Library, start: Store, actions: seq<Action>, a: Action)
    requires Consistent(start) && a.VerifyTake?
    requires a.id in Execute(lib, start, actions).consumed
    ensures
      var w, after := Execute(lib, start, actions), Execute(lib, start, actions + [a]);
      after.tasks == w.tasks && after.successes == w.successes && after.consumed == w.consumed
  {
    AllRunsKeepInv(lib, start, actions);
    OneMoreAction(lib, start, actions, a);
  }

  /** Challenges, issued or about to be, are for registered devices. */
  ghost predicate ChallengedAreRegistered(w: World) {
    && (forall id :: id in w.issued ==> w.issued[id].device in w.store.devices)
    && (forall t :: t in w.tasks && w.tasks[t].Challenging? ==> w.tasks[t].device in w.store.devices)
  }

  /** A step issues a challenge only for a call that has read its device as active, and
      starts such a call only for a device that is. */
  ghost predicate ChallengesSoundly(w: World, after: World) {
    && (forall id :: id in after.issued && id !in w.issued ==>
          exists t :: t in w.tasks && w.tasks[t].Challenging? && w.tasks[t].device == after.issued[id].device
                      && w.tasks[t].now == after.issued[id].made)
    && (forall id :: id in w.issued ==> id in after.issued && after.issued[id] == w.issued[id])
    && (forall t :: t in after.tasks && after.tasks[t].Challenging? ==>
          (t in w.tasks && w.tasks[t] == after.tasks[t]) || IsActive(w.store, after.tasks[t].device))
  }

  lemma StoreChallengesSoundly(w: World, task: nat, id: string, value: Bytes, fault: bool)
    ensures ChallengesSoundly(w, ChallengeStoreStep(w, task, id, value, fault))
  {
    var after := ChallengeStoreStep(w, task, id, value, fault);
    if id in after.issued && id !in w.issued {
      assert w.tasks[task].Challenging? && w.tasks[task].device == after.issued[id].device;
    }
  }

  lemma ReadChallengesSoundly(w: World, task: nat, device: string, at: int, fault: bool, logged: bool)
    ensures ChallengesSoundly(w, ChallengeReadStep(w, task, device, at, fault, logged))
  {
  }

  lemma StepChallengesSoundly(lib: Library, w: World, a: Action)
    ensures ChallengesSoundly(w, Act(lib, w, a))
  {
    match a
    case ChallengeStore(task, id, value, fault) => StoreChallengesSoundly(w, task, id, value, fault);
    case ChallengeRead(task, device, at, fault, logged) => ReadChallengesSoundly(w, task, device, at, fault, logged);
    case _ => assert ChallengesNobody(w, Act(lib, w, a));
  }

  /** In every run only registered devices are ever challenged. */
  lemma {:induction false} OnlyRegisteredAreChallenged(lib: Library, start: Store, actions: seq<Action>)
    requires Consistent(start)
    ensures ChallengedAreRegistered(Execute(lib, start, actions))
    decreases |actions|
  {
    if actions != [] {
      var front, a := actions[..|actions| - 1], actions[|actions| - 1];
      var w := Execute(lib, start, front);
      OnlyRegisteredAreChallenged(lib, start, front);
      AllRunsKeepInv(lib, start, front);
      RegisteredStayChallenged(lib, w, a);
    }
  }

  lemma RegisteredStayChallenged(lib: Library, w: World, a: Action)
    requires TablesOk(w) && ChallengedAreRegistered(w)
    ensures ChallengedAreRegistered(Apply(lib, w, a))
  {
    ActOnTables(lib, w, a);
    StepChallengesSoundly(lib, w, a);
    StillRegistered(w, Act(lib, w, a));
  }

  lemma StillRegistered(w: World, after: World)
    requires ChallengedAreRegistered(w) && ChallengesSoundly(w, after) && DevicesEvolve(w.store, after.store)
    ensures ChallengedAreRegistered(after)
  {
  }

  /** A restart of the panel forgets every open challenge and every call but the
      revocations of other processes, and touches no table. */
  lemma RestartForgets(lib: Library, w: World)
    ensures
      var after := Act(lib, w, RestartPanel);
      && after.open == map[] && after.store == w.store
      && after.lost == w.lost + w.open.Keys
      && forall t :: t in after.tasks <==> t in w.tasks && w.tasks[t].Revoking?
  {
  }

  /** What the steps leave in the audit, when they can: one row for each refusal, which names
      the reason, and one for each success. */
  lemma StepsAreAudited(lib: Library, w: World, task: nat, device: string, id: string, signature: Bytes, at: int, fault: bool)
    ensures task !in w.tasks && (fault || !IsActive(w.store, device)) ==>
              ChallengeReadStep(w, task, device, at, fault, true).store
              == Audited(w.store, Entry(AuthenticationFailure, device, false, at))
    ensures task !in w.tasks && id !in w.open ==>
              VerifyTakeStep(w, task, id, signature, at, true).store
              == Audited(w.store, Entry(ChallengeRejected, "", false, at))
    ensures task !in w.tasks && id in w.open && at >= w.open[id].expires ==>
              VerifyTakeStep(w, task, id, signature, at, true).store
              == Audited(w.store, Entry(ChallengeRejected, w.open[id].device, false, at))
    ensures task in w.tasks && w.tasks[task].Verifying? ==>
              var call := w.tasks[task];
              VerifyReadStep(w, task, fault, true).store
              == if fault || !IsActive(w.store, call.challenge.device)
                 then Audited(w.store, Entry(AuthenticationFailure, call.challenge.device, false, call.now)) else w.store
    ensures task in w.tasks && w.tasks[task].Checking? ==>
              var call := w.tasks[task];
              var ok := lib.verify(call.read.key, call.challenge.value, call.signature);
              VerifyCheckStep(lib, w, task, true).store
              == Audited(w.store, Entry(if ok then LoginSuccess else AuthenticationFailure, call.challenge.device, ok, call.now))
  {
  }

  // ------------------------------------------------------------------
  // Devices
  // ------------------------------------------------------------------

  datatype Stage = Absent | Trusted | Untrusted

  function StageOf(store: Store, id: string): Stage {
    if id !in store.devices then Absent
    else if store.devices[id].status == Active then Trusted
    else Untrusted
  }

  ghost predicate Forward(before: Stage, after: Stage) {
    before == after || (before == Absent && after == Trusted) || (before == Trusted && after == Untrusted)
  }

  lemma ReplaceMovesForward(lib: Library, store: Store, token: string, at: int, faults: StatementFaults, logged: bool, id: string)
    requires Consistent(store)
    ensures Forward(StageOf(store, id), StageOf(Replace(lib, store, token, at, faults, logged).store, id))
  {
    match ParseToken(lib, token, at)
    case Accepted(e, key) => RegisteredExactlyWhenNew(store, e, key, lib.hash(token), at, faults);
    case _ =>
  }

  lemma ActMovesForward(lib: Library, w: World, a: Action, id: string)
    requires Consistent(w.store)
    ensures Forward(StageOf(w.store, id), StageOf(Act(lib, w, a).store, id))
  {
    match a
    case Pair(token, at, faults, logged) => ReplaceMovesForward(lib, w.store, token, at, faults, logged, id);
    case RevokeMark(task, device, fault) =>
    case _ => assert Act(lib, w, a).store.devices == w.store.devices;
  }

  /** Step by step a device goes from absent to active to revoked and nowhere else; and
      the tables always correspond: one token and one pairing row for each device, and
      never more revocation rows than revoked devices. */
  lemma DevicesOnlyMoveForward(lib: Library, start: Store, actions: seq<Action>, a: Action, id: string)
    requires Consistent(start)
    ensures
      var before, after := Execute(lib, start, actions).store, Execute(lib, start, actions + [a]).store;
      && Forward(StageOf(before, id), StageOf(after, id))
      && Evolves(before, after)
      && |after.devices| == |after.tokens| == |Named(after.audit, PairingSucceeded)|
      && |Named(after.audit, DeviceRevoked)|
         <= |set d | d in after.devices && after.devices[d].status == Revoked|
  {
    var w := Execute(lib, start, actions);
    AllRunsKeepInv(lib, start, actions);
    OneMoreAction(lib, start, actions, a);
    ActMovesForward(lib, w, a, id);
    TablesStep(lib, w, a);
    RowsAreCounted(Execute(lib, start, actions + [a]).store);
  }

  // ------------------------------------------------------------------
  // Pairing happens once
  // ------------------------------------------------------------------

  ghost predicate Registers(lib: Library, store: Store, a: Action) {
    a.Pair? && Replace(lib, store, a.token, a.at, a.faults, a.logged).outcome == Paired
  }

  lemma RegisteredIsNew(lib: Library, store: Store, a: Action)
    requires Consistent(store) && Registers(lib, store, a)
    ensures ParseToken(lib, a.token, a.at).Accepted?
    ensures
      var Accepted(e, key) := ParseToken(lib, a.token, a.at);
      var after := Replace(lib, store, a.token, a.at, a.faults, a.logged).store;
      && e.deviceId !in store.devices && !HasKey(store, key) && !HasHash(store, lib.hash(a.token))
      && e.deviceId in after.devices && after.devices[e.deviceId].key == key
      && HasHash(after, lib.hash(a.token))
  {
    var Accepted(e, key) := ParseToken(lib, a.token, a.at);
    RegisteredExactlyWhenNew(store, e, key, lib.hash(a.token), a.at, a.faults);
    var after := Replace(lib, store, a.token, a.at, a.faults, a.logged).store;
    assert after.tokens[|store.tokens|] in after.tokens;
  }

  lemma LaterEvolves(lib: Library, start: Store, actions: seq<Action>, k: nat)
    requires Consistent(start) && k <= |actions|
    ensures Evolves(Execute(lib, start, actions[..k]).store, Execute(lib, start, actions).store)
  {
    AllRunsKeepInv(lib, start, actions);
    if k < |actions| {
      PastIsHistory(lib, start, actions, k);
    } else {
      assert actions[..k] == actions;
    }
  }

  lemma EvolvingKeepsRegistration(store: Store, later: Store, id: string, key: Bytes, hash: Bytes)
    requires DevicesEvolve(store, later) && store.tokens <= later.tokens
    requires id in store.devices && store.devices[id].key == key && HasHash(store, hash)
    ensures Holds(later, id, key, hash)
  {
    assert later.devices[id].key == key;
    var row :| row in store.tokens && row.hash == hash;
    assert row in later.tokens;
  }

  ghost predicate Holds(store: Store, id: string, key: Bytes, hash: Bytes) {
    id in store.devices && HasKey(store, key) && HasHash(store, hash)
  }

  lemma RegisteredNow(lib: Library, start: Store, actions: seq<Action>, a: Action)
    requires Consistent(start) && Registers(lib, Execute(lib, start, actions).store, a)
    ensures ParseToken(lib, a.token, a.at).Accepted?
    ensures
      var Accepted(e, key) := ParseToken(lib, a.token, a.at);
      var after := Execute(lib, start, actions + [a]).store;
      && e.deviceId in after.devices && after.devices[e.deviceId].key == key
      && HasHash(after, lib.hash(a.token))
  {
    TablesAtAnyTime(lib, start, actions);
    RegisteredIsNew(lib, Execute(lib, start, actions).store, a);
    OneMoreAction(lib, start, actions, a);
  }

  /** What a registration put into the tables is still there at any later step. */
  lemma RegistrationLasts(lib: Library, start: Store, actions: seq<Action>, i: nat)
    requires Consistent(start) && i < |actions|
    requires Registers(lib, Execute(lib, start, actions[..i]).store, actions[i])
    ensures ParseToken(lib, actions[i].token, actions[i].at).Accepted?
    ensures
      var Accepted(e, key) := ParseToken(lib, actions[i].token, actions[i].at);
      Holds(Execute(lib, start, actions).store, e.deviceId, key, lib.hash(actions[i].token))
  {
    RegisteredNow(lib, start, actions[..i], actions[i]);
    assert actions[..i] + [actions[i]] == actions[..i + 1];
    LaterEvolves(lib, start, actions, i + 1);
    var Accepted(e, key) := ParseToken(lib, actions[i].token, actions[i].at);
    EvolvingKeepsRegistration(Execute(lib, start, actions[..i + 1]).store, Execute(lib, start, actions).store,
                              e.deviceId, key, lib.hash(actions[i].token));
  }

  /** Two registrations in one run never share a device id, a key or a token hash. */
  lemma RegistrationsDiffer(lib: Library, start: Store, actions: seq<Action>, i: nat, j: nat)
    requires Consistent(start) && i < j < |actions|
    requires Registers(lib, Execute(lib, start, actions[..i]).store, actions[i])
    requires Registers(lib, Execute(lib, start, actions[..j]).store, actions[j])
    ensures
      var first, second := ParseToken(lib, actions[i].token, actions[i].at), ParseToken(lib, actions[j].token, actions[j].at);
      && first.Accepted? && second.Accepted?
      && first.envelope.deviceId != second.envelope.deviceId
      && first.key != second.key
      && lib.hash(actions[i].token) != lib.hash(actions[j].token)
  {
    var later := actions[..j];
    assert later[..i] == actions[..i] && later[i] == actions[i];
    RegistrationLasts(lib, start, later, i);
    TablesAtAnyTime(lib, start, later);
    RegisteredIsNew(lib, Execute(lib, start, later).store, actions[j]);
  }

  lemma SameReading(lib: Library, token: string, at: int, other: string, later: int)
    requires ReadEnvelope(lib, token) == ReadEnvelope(lib, other)
    requires ParseToken(lib, token, at).Accepted? && ParseToken(lib, other, later).Accepted?
    ensures ParseToken(lib, token, at) == ParseToken(lib, other, later)
  {
  }

  /** However many strings read as one envelope, whether they spell the same bytes or
      different texts of it, and whatever their hashes, at most one ever registers it. */
  lemma EnvelopeRegistersOnce(lib: Library, start: Store, actions: seq<Action>, i: nat, j: nat)
    requires Consistent(start) && i < j < |actions|
    requires actions[i].Pair? && actions[j].Pair?
    requires ReadEnvelope(lib, actions[i].token) == ReadEnvelope(lib, actions[j].token)
    ensures !(Registers(lib, Execute(lib, start, actions[..i]).store, actions[i])
              && Registers(lib, Execute(lib, start, actions[..j]).store, actions[j]))
  {
    if Registers(lib, Execute(lib, start, actions[..i]).store, actions[i])
       && Registers(lib, Execute(lib, start, actions[..j]).store, actions[j])
    {
      RegistrationsDiffer(lib, start, actions, i, j);
      SameReading(lib, actions[i].token, actions[i].at, actions[j].token, actions[j].at);
    }
  }

  // ------------------------------------------------------------------
  // What separate steps do not guarantee
  // ------------------------------------------------------------------

  /** A revoked device without its audit row, and no call left that owes the row. */
  ghost predicate RowMissing(w: World, device: string) {
    && IsRevoked(w.store, device)
    && device !in Named(w.store.audit, DeviceRevoked)
    && forall t :: t in w.tasks && w.tasks[t].Revoking? ==> w.tasks[t].device != device
  }

  lemma MarkedAndStopped(lib: Library, w: World, task: nat, device: string)
    requires RevocationsAgree(w.store) && RevocationsOwed(w)
    requires task !in w.tasks && IsActive(w.store, device)
    ensures RowMissing(Apply(lib, Apply(lib, w, RevokeMark(task, device, false)), Abandon(task)), device)
  {
    assert device !in Named(w.store.audit, DeviceRevoked);
  }

  /** Stopping between revoking's two statements, at any time, leaves the row missing. */
  lemma StoppedRevocationLosesItsRow(lib: Library, start: Store, actions: seq<Action>, task: nat, device: string)
    requires Consistent(start)
    requires task !in Execute(lib, start, actions).tasks && IsActive(Execute(lib, start, actions).store, device)
    ensures RowMissing(Execute(lib, start, actions + [RevokeMark(task, device, false)] + [Abandon(task)]), device)
  {
    TablesAtAnyTime(lib, start, actions);
    MarkedAndStopped(lib, Execute(lib, start, actions), task, device);
    OneMoreAction(lib, start, actions, RevokeMark(task, device, false));
    OneMoreAction(lib, start, actions + [RevokeMark(task, device, false)], Abandon(task));
  }

  lemma RowMissingLasts(w: World, after: World, device: string)
    requires RowMissing(w, device) && DevicesEvolve(w.store, after.store) && NoNewDebts(w, after)
    requires Named(after.store.audit, DeviceRevoked) == Named(w.store.audit, DeviceRevoked)
    ensures RowMissing(after, device)
  {
  }

  lemma RevokingAgainDoesNotHelp(w: World, task: nat, other: string, at: int, fault: bool, device: string)
    requires RowMissing(w, device)
    ensures RowMissing(RevokeMarkStep(w, task, other, fault), device)
    ensures RowMissing(RevokeAuditStep(w, task, at, fault), device)
  {
    if task in w.tasks && w.tasks[task].Revoking? {
      NamedAfter(w.store.audit, Entry(DeviceRevoked, w.tasks[task].device, true, at), DeviceRevoked);
    }
  }

  lemma RowStaysMissing(lib: Library, w: World, a: Action, device: string)
    requires Consistent(w.store) && RowMissing(w, device)
    ensures RowMissing(Act(lib, w, a), device)
  {
    match a
    case RevokeMark(task, other, fault) => RevokingAgainDoesNotHelp(w, task, other, 0, fault, device);
    case RevokeAudit(task, at, fault) => RevokingAgainDoesNotHelp(w, task, "", at, fault, device);
    case _ =>
      OtherStepsOnTables(lib, w, a);
      RowMissingLasts(w, Act(lib, w, a), device);
  }

  lemma RowMissingAfterOneMore(lib: Library, start: Store, actions: seq<Action>, a: Action, device: string)
    requires Consistent(start) && RowMissing(Execute(lib, start, actions), device)
    ensures RowMissing(Execute(lib, start, actions + [a]), device)
  {
    TablesAtAnyTime(lib, start, actions);
    OneMoreAction(lib, start, actions, a);
    RowStaysMissing(lib, Execute(lib, start, actions), a, device);
  }

  /** Nothing that happens later, revoking the device again included, makes up for it. */
  lemma {:induction false} MissingRowIsNeverWritten(lib: Library, start: Store, actions: seq<Action>, more: seq<Action>, device: string)
    requires Consistent(start) && RowMissing(Execute(lib, start, actions), device)
    ensures RowMissing(Execute(lib, start, actions + more), device)
    decreases |more|
  {
    if more == [] {
      assert actions + more == actions;
    } else {
      var front, a := more[..|more| - 1], more[|more| - 1];
      MissingRowIsNeverWritten(lib, start, actions, front, device);
      RowMissingAfterOneMore(lib, start, actions + front, a, device);
      assert actions + front + [a] == actions + more;
    }
  }

  // ------------------------------------------------------------------
  // Logging in, undisturbed and not
  // ------------------------------------------------------------------

  lemma IssuedUndisturbed(lib: Library, w: World, task: nat, device: string, id: string, value: Bytes, at: int)
    requires task !in w.tasks && IsActive(w.store, device) && id !in w.issued
    ensures
      var read := Apply(lib, w, ChallengeRead(task, device, at, false, true));
      var after := Apply(lib, read, ChallengeStore(task, id, value, false));
      && after.store == w.store && after.tasks == w.tasks && after.successes == w.successes
      && after.past == w.past + [w.store] + [w.store]
      && id in after.open && after.open[id] == Challenge(device, value, at + CHALLENGE_LIFETIME)
  {
  }

  lemma TakenUndisturbed(lib: Library, w: World, task: nat, id: string, signature: Bytes, now: int)
    requires task !in w.tasks && id in w.open && now < w.open[id].expires && IsActive(w.store, w.open[id].device)
    ensures
      var taken := Apply(lib, w, VerifyTake(task, id, signature, now, true));
      var after := Apply(lib, taken, VerifyRead(task, false, true));
      && after.store == w.store && after.successes == w.successes
      && after.tasks == w.tasks[task := Checking(id, w.open[id], signature, now, w.store.devices[w.open[id].device], |w.past| + 1)]
  {
  }

  lemma RevokedAndChecked(lib: Library, w: World, task: nat, revoker: nat, at: int)
    requires task in w.tasks && w.tasks[task].Checking? && revoker !in w.tasks
    requires IsActive(w.store, w.tasks[task].challenge.device)
    requires lib.verify(w.tasks[task].read.key, w.tasks[task].challenge.value, w.tasks[task].signature)
    ensures
      var device := w.tasks[task].challenge.device;
      var marked := Apply(lib, w, RevokeMark(revoker, device, false));
      var audited := Apply(lib, marked, RevokeAudit(revoker, at, false));
      var after := Apply(lib, audited, VerifyCheck(task, true));
      && |after.successes| == |w.successes| + 1
      && IsRevoked(audited.store, device) && audited.successes == w.successes
      && after.store == Audited(audited.store, Entry(LoginSuccess, device, true, w.tasks[task].now))
      && audited.store.audit == w.store.audit + [Entry(DeviceRevoked, device, true, at)]
  {
  }

  /** A challenge issued, answered and taken at time `at`, up to the signature check. */
  function Answering(task: nat, device: string, id: string, value: Bytes, signature: Bytes, at: int): seq<Action> {
    [ChallengeRead(task, device, at, false, true)] + [ChallengeStore(task, id, value, false)]
    + [VerifyTake(task, id, signature, at, true)] + [VerifyRead(task, false, true)]
  }

  ghost predicate CanLogIn(w: World, task: nat, device: string, id: string) {
    task !in w.tasks && IsActive(w.store, device) && id !in w.issued
  }

  lemma IssuedInRun(lib: Library, start: Store, actions: seq<Action>,
                    task: nat, device: string, id: string, value: Bytes, at: int)
    requires CanLogIn(Execute(lib, start, actions), task, device, id)
    ensures
      var w := Execute(lib, start, actions);
      var after := Execute(lib, start, actions + [ChallengeRead(task, device, at, false, true)]
                                               + [ChallengeStore(task, id, value, false)]);
      && after.store == w.store && after.tasks == w.tasks && after.successes == w.successes
      && |after.past| == |w.past| + 2
      && id in after.open && after.open[id] == Challenge(device, value, at + CHALLENGE_LIFETIME)
  {
    var read := ChallengeRead(task, device, at, false, true);
    IssuedUndisturbed(lib, Execute(lib, start, actions), task, device, id, value, at);
    OneMoreAction(lib, start, actions, read);
    OneMoreAction(lib, start, actions + [read], ChallengeStore(task, id, value, false));
  }

  lemma TakenInRun(lib: Library, start: Store, actions: seq<Action>, task: nat, id: string, signature: Bytes, now: int)
    requires
      var w := Execute(lib, start, actions);
      task !in w.tasks && id in w.open && now < w.open[id].expires && IsActive(w.store, w.open[id].device)
    ensures
      var w := Execute(lib, start, actions);
      var after := Execute(lib, start, actions + [VerifyTake(task, id, signature, now, true)] + [VerifyRead(task, false, true)]);
      && after.store == w.store && after.successes == w.successes
      && after.tasks == w.tasks[task := Checking(id, w.open[id], signature, now, w.store.devices[w.open[id].device], |w.past| + 1)]
  {
    var take := VerifyTake(task, id, signature, now, true);
    TakenUndisturbed(lib, Execute(lib, start, actions), task, id, signature, now);
    OneMoreAction(lib, start, actions, take);
    OneMoreAction(lib, start, actions + [take], VerifyRead(task, false, true));
  }

  lemma AnsweringReachesTheCheck(lib: Library, start: Store, actions: seq<Action>,
                                 task: nat, device: string, id: string, value: Bytes, signature: Bytes, at: int)
    requires CanLogIn(Execute(lib, start, actions), task, device, id)
    ensures
      var w := Execute(lib, start, actions);
      var after := Execute(lib, start, actions + Answering(task, device, id, value, signature, at));
      && after.store == w.store && after.successes == w.successes
      && after.tasks == w.tasks[task := Checking(id, Challenge(device, value, at + CHALLENGE_LIFETIME), signature, at,
                                                 w.store.devices[device], |w.past| + 3)]
  {
    var issued := actions + [ChallengeRead(task, device, at, false, true)] + [ChallengeStore(task, id, value, false)];
    IssuedInRun(lib, start, actions, task, device, id, value, at);
    TakenInRun(lib, start, issued, task, id, signature, at);
    assert actions + Answering(task, device, id, value, signature, at)
           == issued + [VerifyTake(task, id, signature, at, true)] + [VerifyRead(task, false, true)];
  }

  lemma CheckAnswered(lib: Library, w: World, task: nat, id: string, challenge: Challenge, signature: Bytes,
                      at: int, read: Device, readAt: nat)
    requires task in w.tasks && w.tasks[task] == Checking(id, challenge, signature, at, read, readAt)
    ensures Apply(lib, w, VerifyCheck(task, true)).successes
            == w.successes + if lib.verify(read.key, challenge.value, signature)
                             then [Success(id, signature, at, read, readAt)] else []
  {
    CheckDecides(lib, w, task, true);
  }

  /** Undisturbed, an active device logs in exactly when its answer verifies. */
  lemma HonestLoginSucceeds(lib: Library, start: Store, actions: seq<Action>,
                            task: nat, device: string, id: string, value: Bytes, signature: Bytes, at: int)
    requires CanLogIn(Execute(lib, start, actions), task, device, id)
    ensures
      var w := Execute(lib, start, actions);
      var run := actions + Answering(task, device, id, value, signature, at) + [VerifyCheck(task, true)];
      Execute(lib, start, run).successes
      == w.successes + if lib.verify(w.store.devices[device].key, value, signature)
                       then [Success(id, signature, at, w.store.devices[device], |w.past| + 3)] else []
  {
    AnsweringReachesTheCheck(lib, start, actions, task, device, id, value, signature, at);
    var answered := actions + Answering(task, device, id, value, signature, at);
    OneMoreAction(lib, start, answered, VerifyCheck(task, true));
    var w := Execute(lib, start, actions);
    CheckAnswered(lib, Execute(lib, start, answered), task, id, Challenge(device, value, at + CHALLENGE_LIFETIME),
                  signature, at, w.store.devices[device], |w.past| + 3);
  }

  /** Disturbed, a login can succeed, and be logged, after the device's revocation is
      complete and on record: the device was read before it and is not read again. */
  lemma LoginSucceedsAfterRevocation(lib: Library, start: Store, actions: seq<Action>, revoker: nat,
                                     task: nat, device: string, id: string, value: Bytes, signature: Bytes, at: int)
    requires CanLogIn(Execute(lib, start, actions), task, device, id)
    requires revoker != task && revoker !in Execute(lib, start, actions).tasks
    requires lib.verify(Execute(lib, start, actions).store.devices[device].key, value, signature)
    ensures
      var w := Execute(lib, start, actions);
      var run := actions + Answering(task, device, id, value, signature, at)
                 + [RevokeMark(revoker, device, false)] + [RevokeAudit(revoker, at, false)];
      var revoked, after := Execute(lib, start, run), Execute(lib, start, run + [VerifyCheck(task, true)]);
      && IsRevoked(revoked.store, device) && |revoked.successes| == |w.successes|
      && |after.successes| == |w.successes| + 1
      && after.store.audit == w.store.audit + [Entry(DeviceRevoked, device, true, at)] + [Entry(LoginSuccess, device, true, at)]
  {
    AnsweringReachesTheCheck(lib, start, actions, task, device, id, value, signature, at);
    var run := actions + Answering(task, device, id, value, signature, at);
    var mark, audit := RevokeMark(revoker, device, false), RevokeAudit(revoker, at, false);
    RevokedAndChecked(lib, Execute(lib, start, run), task, revoker, at);
    OneMoreAction(lib, start, run, mark);
    OneMoreAction(lib, start, run + [mark], audit);
    OneMoreAction(lib, start, run + [mark] + [audit], VerifyCheck(task, true));
  }
}
