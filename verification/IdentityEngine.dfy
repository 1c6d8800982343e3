/**
  The identity repository and the panel's authenticator as objects with state.

  Other processes share the tables: before each database step of a call they may have
  moved them to anything the steps of Authentication can reach. What that is, is shown
  there for every step of every process.
  */
module IdentityEngine {
  import opened Shared
  import opened Pairing
  import opened Registry
  import opened Authentication

  /** For each database step: does it fail, and what others have made of the tables. */
  datatype Environment = Environment(fault: nat -> bool, others: nat -> Store)

  /** The tables a step finds. Others only evolve them, and write no revocation row for a
      device whose row this call owes. */
  function Found(store: Store, owed: set<string>, env: Environment, step: nat): Store {
    var others := env.others(step);
    if Evolves(store, others) && (forall id :: id in owed ==> id !in Named(others.audit, DeviceRevoked))
      then others else store
  }

  /** One best-effort audit row, after others' steps. */
  function AuditedAt(store: Store, env: Environment, step: nat, entry: Entry): Store {
    MaybeAudited(Found(store, {}, env, step), !env.fault(step), entry)
  }

  lemma FoundEvolves(store: Store, owed: set<string>, env: Environment, step: nat)
    requires Consistent(store)
    requires forall id :: id in owed ==> id !in Named(store.audit, DeviceRevoked)
    ensures Evolves(store, Found(store, owed, env, step))
    ensures forall id :: id in owed ==> id !in Named(Found(store, owed, env, step).audit, DeviceRevoked)
  {
  }

  lemma AuditedAtEvolves(store: Store, env: Environment, step: nat, entry: Entry)
    requires Consistent(store) && entry.event != PairingSucceeded && entry.event != DeviceRevoked
    ensures Evolves(store, AuditedAt(store, env, step, entry))
  {
    var found := Found(store, {}, env, step);
    FoundEvolves(store, {}, env, step);
    if !env.fault(step) {
      AuditingEvolves(found, entry);
      EvolvesTransitive(store, found, Audited(found, entry));
    }
  }

  /** Others' steps, whatever they are, are among those Found allows: for any call, and
      for one that owes the row of a device it has marked. */
  lemma OthersAreFound(lib: Library, w: World, a: Action, env: Environment, step: nat)
    requires TablesOk(w) && env.others(step) == Act(lib, w, a).store
    ensures Found(w.store, {}, env, step) == Act(lib, w, a).store
    ensures forall task ::
              task in w.tasks && w.tasks[task].Revoking?
              && task in Act(lib, w, a).tasks && Act(lib, w, a).tasks[task] == w.tasks[task] ==>
                Found(w.store, {w.tasks[task].device}, env, step) == Act(lib, w, a).store
  {
    ActOnTables(lib, w, a);
  }

  /** The pairing transaction's faults, from the step it begins at. */
  function FaultsFrom(env: Environment, step: nat): StatementFaults {
    StatementFaults(env.fault(step), env.fault(step + 1), env.fault(step + 2), env.fault(step + 3),
           env.fault(step + 4), env.fault(step + 5), env.fault(step + 6), env.fault(step + 7))
  }

  datatype Revocation = Recorded | NotActive | MarkFailed | RowFailed

  datatype RevocationEnd = RevocationEnd(outcome: Revocation, store: Store)

  /** What revoking comes to, for each fault and with interference between the statements. */
  function RevocationOf(store: Store, id: string, now: int, env: Environment, step: nat): RevocationEnd {
    var found := Found(store, {}, env, step);
    if env.fault(step) then RevocationEnd(MarkFailed, found)
    else if !IsActive(found, id) then RevocationEnd(NotActive, found)
    else
      var marked := Found(Mark(found, id), {id}, env, step + 1);
      if env.fault(step + 1) then RevocationEnd(RowFailed, marked)
      else RevocationEnd(Recorded, Audited(marked, Entry(DeviceRevoked, id, true, now)))
  }

  lemma MarkedEvolves(found: Store, id: string, env: Environment, step: nat)
    requires Consistent(found) && IsActive(found, id)
    ensures
      var marked := Found(Mark(found, id), {id}, env, step);
      Evolves(found, marked) && IsRevoked(marked, id) && id !in Named(marked.audit, DeviceRevoked)
  {
    assert id !in Named(found.audit, DeviceRevoked);
    MarkEvolves(found, id);
    FoundEvolves(Mark(found, id), {id}, env, step);
    EvolvesTransitive(found, Mark(found, id), Found(Mark(found, id), {id}, env, step));
  }

  /** Revoking keeps the tables consistent; it is on record exactly when it says so, and a
      device whose row failed is revoked and not on record. */
  lemma RevokingEvolves(store: Store, id: string, now: int, env: Environment, step: nat)
    requires Consistent(store)
    ensures
      var end := RevocationOf(store, id, now, env, step);
      && Evolves(store, end.store)
      && (end.outcome == Recorded ==> IsRevoked(end.store, id) && id in Named(end.store.audit, DeviceRevoked))
      && (end.outcome == RowFailed ==> IsRevoked(end.store, id) && id !in Named(end.store.audit, DeviceRevoked))
  {
    var found := Found(store, {}, env, step);
    FoundEvolves(store, {}, env, step);
    if !env.fault(step) && IsActive(found, id) {
      var marked := Found(Mark(found, id), {id}, env, step + 1);
      MarkedEvolves(found, id, env, step + 1);
      EvolvesTransitive(store, found, marked);
      if !env.fault(step + 1) {
        AuditingRevocationEvolves(marked, id, now);
        EvolvesTransitive(store, marked, Audited(marked, Entry(DeviceRevoked, id, true, now)));
      }
    }
  }

  /** Each end of a revocation, by the faults and the tables its statements find. */
  lemma RevokingExactly(store: Store, id: string, now: int, env: Environment, step: nat)
    ensures
      var end, found := RevocationOf(store, id, now, env, step), Found(store, {}, env, step);
      var active := id in found.devices && found.devices[id].status == Active;
      && (end.outcome == MarkFailed <==> env.fault(step))
      && (end.outcome == NotActive <==> !env.fault(step) && !active)
      && (end.outcome == MarkFailed || end.outcome == NotActive ==> end.store == found)
      && (end.outcome == Recorded <==> !env.fault(step) && active && !env.fault(step + 1))
      && (!env.fault(step) && active ==>
            var marked := found.(devices := found.devices[id := found.devices[id].(status := Status.Revoked)]);
            var later := Found(marked, {id}, env, step + 1);
            end.store == if env.fault(step + 1) then later
                         else later.(audit := later.audit + [Entry(DeviceRevoked, id, true, now)]))
  {
  }

  /** The method's two statements are the two steps of the interleavings: the first leaves a
      call that owes a row exactly when the device is marked, and the tables agree. */
  lemma RevokedAsInTheSteps(w: World, task: nat, id: string, now: int, env: Environment, step: nat)
    requires task !in w.tasks
    ensures
      var end := RevocationOf(w.store, id, now, env, step);
      var marked := RevokeMarkStep(w.(store := Found(w.store, {}, env, step)), task, id, env.fault(step));
      var later := marked.(store := Found(marked.store, {id}, env, step + 1));
      && (task in marked.tasks <==> end.outcome == Recorded || end.outcome == RowFailed)
      && end.store == (if task in marked.tasks then RevokeAuditStep(later, task, now, env.fault(step + 1)).store
                       else marked.store)
  {
  }

  class Repository {
    const env: Environment
    var devices: map<string, Device>
    var tokens: seq<TokenRow>
    var audit: seq<Entry>
    var clock: nat

    constructor (env: Environment, store: Store)
      ensures this.env == env && Contents() == store && clock == 0
    {
      this.env := env;
      devices, tokens, audit, clock := store.devices, store.tokens, store.audit, 0;
    }

    function Contents(): Store
      reads this
    {
      Store(devices, tokens, audit)
    }

    ghost predicate Valid()
      reads this
    {
      Consistent(Contents())
    }

    method Commit(store: Store)
      modifies this
      ensures Contents() == store && clock == old(clock)
    {
      devices, tokens, audit := store.devices, store.tokens, store.audit;
    }

    /** One database step: others go first, then it may fail. */
    method Step(owed: set<string>) returns (ok: bool)
      modifies this
      ensures Contents() == Found(old(Contents()), owed, env, old(clock))
      ensures ok == !env.fault(old(clock)) && clock == old(clock) + 1
    {
      ok := !env.fault(clock);
      Commit(Found(Contents(), owed, env, clock));
      clock := clock + 1;
    }

    /** A step inside a transaction: others are kept out. */
    method Attempt() returns (ok: bool)
      modifies this`clock
      ensures ok == !env.fault(old(clock)) && clock == old(clock) + 1
    {
      ok, clock := !env.fault(clock), clock + 1;
    }

    method Audit(entry: Entry)
      modifies this
      ensures Contents() == AuditedAt(old(Contents()), env, old(clock), entry)
      ensures clock == old(clock) + 1
    {
      var ok := Step({});
      if ok {
        audit := audit + [entry];
      }
    }

    /** Registers the device a token names, all of it or nothing. */
    method Replace(lib: Library, token: string, now: int) returns (outcome: Outcome, device: Option<Device>)
      requires Valid()
      modifies this
      ensures Valid() && Evolves(old(Contents()), Contents())
      ensures
        var found := Found(old(Contents()), {}, env, old(clock));
        Registration(outcome, Contents())
        == Registry.Replace(lib, found, token, now, FaultsFrom(env, old(clock)), !env.fault(old(clock)))
      ensures outcome == Paired <==> device.Some?
      ensures outcome == Rejected <==> !ParseToken(lib, token, now).Accepted?
      ensures outcome == Paired ==>
                var Accepted(e, key) := ParseToken(lib, token, now);
                device == Some(Device(key, now, Active)) && devices[e.deviceId] == device.value
    {
      var parsed := ParseToken(lib, token, now);
      if !parsed.Accepted? {
        var entry := Entry(PairingRejected, "", false, now);
        AuditedAtEvolves(Contents(), env, clock, entry);
        Audit(entry);
        return Rejected, None;
      }
      FoundEvolves(Contents(), {}, env, clock);
      var ok := Step({});
      if !ok {
        return Interrupted, None;
      }
      ghost var found := Contents();
      ReplaceEvolves(lib, found, token, now, FaultsFrom(env, old(clock)), true);
      RegisteredExactlyWhenNew(found, parsed.envelope, parsed.key, lib.hash(token), now, FaultsFrom(env, old(clock)));
      outcome := Register(parsed.envelope, parsed.key, lib.hash(token), now);
      device := if outcome == Paired then Some(Device(parsed.key, now, Active)) else None;
    }

    /** The body of the pairing transaction, on a working copy until it commits. */
    method Register(e: Envelope, key: Bytes, hash: Bytes, now: int) returns (outcome: Outcome)
      requires clock > 0 && !env.fault(clock - 1)
      modifies this
      ensures Registration(outcome, Contents())
              == Registry.Register(old(Contents()), e, key, hash, now, FaultsFrom(env, old(clock) - 1))
    {
      var work := Contents();
      var ok := Attempt();
      if ok && HasHash(work, hash) {
        return TokenUsed;
      }
      ok := Attempt();
      if ok && e.deviceId in work.devices {
        return DeviceKnown;
      }
      ok := Attempt();
      if ok && HasKey(work, key) {
        return KeyKnown;
      }
      ok := Attempt();
      var next := InsertDevice(work, e.deviceId, key, now);
      if !ok || next.None? {
        return Interrupted;
      }
      ok := Attempt();
      next := InsertToken(next.value, TokenRow(e.deviceId, hash, e.deviceId, now, e.expiresAt * SECOND));
      if !ok || next.None? {
        return Interrupted;
      }
      ok := Attempt();
      if !ok {
        return Interrupted;
      }
      work := Audited(next.value, Entry(PairingSucceeded, e.deviceId, true, now));
      ok := Attempt();
      if !ok {
        return Interrupted;
      }
      Commit(work);
      outcome := Paired;
    }

    /** Reads a device; a failed read counts as no such device. */
    method Get(id: string) returns (device: Option<Device>)
      modifies this
      ensures Contents() == Found(old(Contents()), {}, env, old(clock)) && clock == old(clock) + 1
      ensures device == if !env.fault(old(clock)) && id in devices then Some(devices[id]) else None
    {
      var ok := Step({});
      device := if ok && id in devices then Some(devices[id]) else None;
    }

    /** Revokes an active device. The mark and its audit row are separate statements, so
        the device can end up revoked without one. */
    method Revoke(id: string, now: int) returns (outcome: Revocation)
      requires Valid()
      modifies this
      ensures Valid() && Evolves(old(Contents()), Contents())
      ensures RevocationEnd(outcome, Contents()) == RevocationOf(old(Contents()), id, now, env, old(clock))
      ensures outcome == Recorded ==> IsRevoked(Contents(), id) && id in Named(audit, DeviceRevoked)
      ensures outcome == RowFailed ==> IsRevoked(Contents(), id) && id !in Named(audit, DeviceRevoked)
      // that is: refused exactly for a device the first statement does not find active,
      // marked otherwise, and recorded unless the second statement fails
      ensures
        var step := old(clock);
        var found := Found(old(Contents()), {}, env, step);
        var active := id in found.devices && found.devices[id].status == Active;
        && (outcome == MarkFailed <==> env.fault(step))
        && (outcome == NotActive <==> !env.fault(step) && !active)
        && (outcome == MarkFailed || outcome == NotActive ==> Contents() == found)
        && (outcome == Recorded <==> !env.fault(step) && active && !env.fault(step + 1))
        && (outcome == Recorded || outcome == RowFailed ==> id in devices && devices[id].status == Revoked)
    {
      RevokingExactly(Contents(), id, now, env, clock);
      RevokingEvolves(Contents(), id, now, env, clock);
      outcome := MarkAndRecord(id, now);
    }

    /** The two statements. */
    method MarkAndRecord(id: string, now: int) returns (outcome: Revocation)
      modifies this
      ensures RevocationEnd(outcome, Contents()) == RevocationOf(old(Contents()), id, now, env, old(clock))
    {
      var ok := Step({});
      if !ok {
        return MarkFailed;
      }
      if !IsActive(Contents(), id) {
        return NotActive;
      }
      Commit(Mark(Contents(), id));
      ok := Step({id});
      if !ok {
        return RowFailed;
      }
      audit := audit + [Entry(DeviceRevoked, id, true, now)];
      outcome := Recorded;
    }
  }

  // ------------------------------------------------------------------
  // The authenticator
  // ------------------------------------------------------------------

  datatype Verdict = Verdict(event: Event, device: string)

  /** What a call that took its challenge in time comes to, given the tables it reads. */
  function JudgeAnswer(lib: Library, challenge: Challenge, read: Store, fault: bool, signature: Bytes): Verdict {
    if fault || !IsActive(read, challenge.device)
       || !lib.verify(read.devices[challenge.device].key, challenge.value, signature)
    then Verdict(AuthenticationFailure, challenge.device)
    else Verdict(LoginSuccess, challenge.device)
  }

  /** What one call to Verify comes to, given the open challenges and the tables at the
      moment it reads the device. */
  function Judge(lib: Library, open: map<string, Challenge>, read: Store, fault: bool,
                 id: string, signature: Bytes, now: int): Verdict
  {
    if id !in open then Verdict(ChallengeRejected, "")
    else if now >= open[id].expires then Verdict(ChallengeRejected, open[id].device)
    else JudgeAnswer(lib, open[id], read, fault, signature)
  }

  lemma ReadAsJudged(lib: Library, w: World, task: nat, fault: bool, later: Store)
    requires task in w.tasks && w.tasks[task].Verifying?
    ensures
      var call := w.tasks[task];
      var looked := VerifyReadStep(w, task, fault, true).(store := later);
      var after := VerifyCheckStep(lib, looked, task, true);
      && (|after.successes| == |w.successes| + 1 <==>
            !fault && IsActive(w.store, call.challenge.device)
            && lib.verify(w.store.devices[call.challenge.device].key, call.challenge.value, call.signature))
      && w.successes <= after.successes && |after.successes| <= |w.successes| + 1
  {
    var looked := VerifyReadStep(w, task, fault, true).(store := later);
    if task in looked.tasks && looked.tasks[task].Checking? {
      CheckDecides(lib, looked, task, true);
    }
  }

  /** The verdict is what the interleaved steps come to, whatever the tables become
      between them: one more success exactly for LoginSuccess. */
  lemma JudgedAsInTheSteps(lib: Library, w: World, task: nat, id: string, signature: Bytes, now: int,
                           read: Store, fault: bool, later: Store)
    requires task !in w.tasks
    ensures
      var taken := VerifyTakeStep(w, task, id, signature, now, true).(store := read);
      var looked := VerifyReadStep(taken, task, fault, true).(store := later);
      var after := VerifyCheckStep(lib, looked, task, true);
      && (Judge(lib, w.open, read, fault, id, signature, now).event == LoginSuccess
          <==> |after.successes| == |w.successes| + 1)
      && w.successes <= after.successes && |after.successes| <= |w.successes| + 1
  {
    var taken := VerifyTakeStep(w, task, id, signature, now, true).(store := read);
    if task in taken.tasks {
      ReadAsJudged(lib, taken, task, fault, later);
    }
  }

  /** The open challenges as other calls of the panel leave them: they take some, and
      issue others under ids that were never issued before. */
  function Mixed(open: map<string, Challenge>, issued: set<string>, others: map<string, Challenge>): map<string, Challenge> {
    if forall id :: id in others ==> (id in open && others[id] == open[id]) || id !in issued
      then others else open
  }

  /** Other calls' steps, whatever they are, are among those Mixed allows. */
  lemma OtherCallsAreMixed(lib: Library, w: World, a: Action)
    requires ChallengesAddUp(w)
    ensures Mixed(w.open, w.issued.Keys, Act(lib, w, a).open) == Act(lib, w, a).open
  {
    match a
    case ChallengeStore(task, id, value, fault) =>
    case VerifyTake(task, id, signature, at, logged) =>
    case RestartPanel =>
    case _ => assert Act(lib, w, a).open == w.open;
  }

  /** Consistent tables stay so through a best-effort audit row, on its own or after a read. */
  lemma KeepsTables(store: Store, env: Environment, step: nat, entry: Entry)
    requires entry.event != PairingSucceeded && entry.event != DeviceRevoked
    ensures
      var read := Found(store, {}, env, step);
      Consistent(store) ==>
        && Consistent(read)
        && Consistent(AuditedAt(store, env, step, entry))
        && Consistent(AuditedAt(read, env, step + 1, entry))
  {
    if Consistent(store) {
      var read := Found(store, {}, env, step);
      FoundEvolves(store, {}, env, step);
      AuditedAtEvolves(store, env, step, entry);
      AuditedAtEvolves(read, env, step + 1, entry);
    }
  }

  /** What a call comes to: its result and the tables. */
  datatype CallEnd = CallEnd(ok: bool, store: Store)

  /** Issuing: for a device read as active, if random bytes can be had; otherwise audited. */
  function IssueOf(store: Store, env: Environment, step: nat, device: string, random: bool, now: int): CallEnd {
    var read := Found(store, {}, env, step);
    if !env.fault(step) && IsActive(read, device) then CallEnd(random, read)
    else CallEnd(false, AuditedAt(read, env, step + 1, Entry(AuthenticationFailure, device, false, now)))
  }

  /** Verifying: the verdict on the tables found at the read, and its audit row. */
  function VerifyOf(lib: Library, open: map<string, Challenge>, store: Store, env: Environment, step: nat,
                    id: string, signature: Bytes, now: int): CallEnd
  {
    var inTime := id in open && now < open[id].expires;
    var read := if inTime then Found(store, {}, env, step) else store;
    var verdict := Judge(lib, open, read, env.fault(step), id, signature, now);
    var ok := verdict.event == LoginSuccess;
    CallEnd(ok, AuditedAt(read, env, if inTime then step + 1 else step, Entry(verdict.event, verdict.device, ok, now)))
  }

  lemma IssueKeepsTables(store: Store, env: Environment, step: nat, device: string, random: bool, now: int)
    requires Consistent(store)
    ensures Consistent(IssueOf(store, env, step, device, random, now).store)
  {
    KeepsTables(store, env, step, Entry(AuthenticationFailure, device, false, now));
  }

  lemma VerifyKeepsTables(lib: Library, open: map<string, Challenge>, store: Store, env: Environment, step: nat,
                          id: string, signature: Bytes, now: int)
    requires Consistent(store)
    ensures Consistent(VerifyOf(lib, open, store, env, step, id, signature, now).store)
  {
    var read := if id in open && now < open[id].expires then Found(store, {}, env, step) else store;
    var verdict := Judge(lib, open, read, env.fault(step), id, signature, now);
    KeepsTables(store, env, step, Entry(verdict.event, verdict.device, verdict.event == LoginSuccess, now));
  }

  /** A call to Verify, by what it takes, finds and is given: when it succeeds, and the one
      audit row it leaves unless that fails. */
  lemma VerifyingExactly(lib: Library, open: map<string, Challenge>, store: Store, env: Environment, step: nat,
                         id: string, signature: Bytes, now: int)
    ensures
      var end, found := VerifyOf(lib, open, store, env, step, id, signature, now), Found(store, {}, env, step);
      var known, inTime := id in open, id in open && now < open[id].expires;
      && (end.ok <==>
            && id in open && now < open[id].expires && !env.fault(step)
            && open[id].device in found.devices && found.devices[open[id].device].status == Active
            && lib.verify(found.devices[open[id].device].key, open[id].value, signature))
      && var row := if !known then Entry(ChallengeRejected, "", false, now)
                    else if !inTime then Entry(ChallengeRejected, open[id].device, false, now)
                    else if end.ok then Entry(LoginSuccess, open[id].device, true, now)
                    else Entry(AuthenticationFailure, open[id].device, false, now);
         var last, tables := if inTime then step + 1 else step, if inTime then Found(found, {}, env, step + 1) else found;
         end.store == if env.fault(last) then tables else tables.(audit := tables.audit + [row])
  {
  }

  /** A call succeeds exactly when its steps, among those of others, add a success. */
  lemma VerifiedAsInTheSteps(lib: Library, w: World, task: nat, id: string, signature: Bytes, now: int,
                             env: Environment, step: nat, later: Store)
    requires task !in w.tasks
    ensures
      var taken := VerifyTakeStep(w, task, id, signature, now, true).(store := Found(w.store, {}, env, step));
      var looked := VerifyReadStep(taken, task, env.fault(step), true).(store := later);
      var after := VerifyCheckStep(lib, looked, task, true);
      && (VerifyOf(lib, w.open, w.store, env, step, id, signature, now).ok
          <==> |after.successes| == |w.successes| + 1)
      && w.successes <= after.successes && |after.successes| <= |w.successes| + 1
  {
    JudgedAsInTheSteps(lib, w, task, id, signature, now, Found(w.store, {}, env, step), env.fault(step), later);
  }

  /** A call to Challenge: it issues exactly for a device that is read and active, and audits
      a refusal. */
  lemma IssuingExactly(store: Store, env: Environment, step: nat, device: string, random: bool, now: int)
    ensures
      var end, found := IssueOf(store, env, step, device, random, now), Found(store, {}, env, step);
      var active := !env.fault(step) && device in found.devices && found.devices[device].status == Active;
      && (end.ok <==> active && random)
      && (active ==> end.store == found)
      && (!active ==>
            var tables := Found(found, {}, env, step + 1);
            end.store == if env.fault(step + 1) then tables
                         else tables.(audit := tables.audit + [Entry(AuthenticationFailure, device, false, now)]))
  {
  }

  class Authenticator {
    const repository: Repository
    const calls: nat -> map<string, Challenge>
    var challenges: map<string, Challenge>
    var issued: set<string>    // every id there has ever been; only other calls look

    constructor (repository: Repository, calls: nat -> map<string, Challenge>)
      ensures this.repository == repository && this.calls == calls
      ensures Valid() && challenges == map[] && issued == {}
    {
      this.repository, this.calls := repository, calls;
      challenges, issued := map[], {};
    }

    ghost predicate Valid()
      reads this
    {
      challenges.Keys <= issued
    }

    /** The lock is free: other calls of the panel may use the map. */
    method Unlock(step: nat)
      requires Valid()
      modifies this
      ensures Valid() && challenges == Mixed(old(challenges), old(issued), calls(step))
      ensures issued == old(issued) + challenges.Keys
    {
      challenges := Mixed(challenges, issued, calls(step));
      issued := issued + challenges.Keys;
    }

    /** Issues a challenge to an active device, under a fresh id. */
    method IssueChallenge(device: string, id: string, value: Bytes, random: bool, now: int) returns (issues: bool)
      requires Valid() && repository.Valid()
      requires id !in issued && forall step :: id !in calls(step)
      modifies this, repository
      ensures Valid() && repository.Valid()
      ensures
        var step := old(repository.clock);
        var meanwhile := Mixed(old(challenges), old(issued), calls(step));
        && CallEnd(issues, repository.Contents())
           == IssueOf(old(repository.Contents()), repository.env, step, device, random, now)
        && challenges == if issues then meanwhile[id := Challenge(device, value, now + CHALLENGE_LIFETIME)]
                         else meanwhile
      // that is: exactly for a device read as active, and good for two minutes
      ensures
        var env, step := repository.env, old(repository.clock);
        var found := Found(old(repository.Contents()), {}, env, step);
        && (issues <==> random && !env.fault(step) && device in found.devices && found.devices[device].status == Active)
        && (issues ==> id in challenges && challenges[id] == Challenge(device, value, now + 120 * SECOND))
    {
      IssuingExactly(repository.Contents(), repository.env, repository.clock, device, random, now);
      IssueKeepsTables(repository.Contents(), repository.env, repository.clock, device, random, now);
      issues := ReadAndStore(device, id, value, random, now);
    }

    /** Its steps: reading the device, and storing the challenge under the lock. */
    method ReadAndStore(device: string, id: string, value: Bytes, random: bool, now: int) returns (issues: bool)
      requires Valid() && id !in issued && forall step :: id !in calls(step)
      modifies this, repository
      ensures Valid()
      ensures
        var step := old(repository.clock);
        var meanwhile := Mixed(old(challenges), old(issued), calls(step));
        && CallEnd(issues, repository.Contents())
           == IssueOf(old(repository.Contents()), repository.env, step, device, random, now)
        && challenges == if issues then meanwhile[id := Challenge(device, value, now + CHALLENGE_LIFETIME)]
                         else meanwhile
    {
      var step := repository.clock;
      var known := repository.Get(device);
      Unlock(step);
      if known.None? || known.value.status != Active {
        repository.Audit(Entry(AuthenticationFailure, device, false, now));
        return false;
      }
      if random {
        challenges := challenges[id := Challenge(device, value, now + CHALLENGE_LIFETIME)];
        issued := issued + {id};
      }
      issues := random;
    }

    /** Takes a challenge, then judges the answer to it. A challenge that was ever issued
        is not open afterwards, whatever other calls do. */
    method Verify(lib: Library, id: string, signature: Bytes, now: int) returns (ok: bool)
      requires Valid() && repository.Valid()
      modifies this, repository
      ensures Valid() && repository.Valid() && (id in old(issued) ==> id !in challenges)
      ensures challenges == Mixed(old(challenges) - {id}, old(issued), calls(old(repository.clock)))
      ensures CallEnd(ok, repository.Contents())
              == VerifyOf(lib, old(challenges), old(repository.Contents()), repository.env, old(repository.clock),
                          id, signature, now)
      // that is: exactly for an open challenge, in time, answered under the key of a device
      // that the read finds active
      ensures
        var env, step, open := repository.env, old(repository.clock), old(challenges);
        var found := Found(old(repository.Contents()), {}, env, step);
        ok <==> && id in open && now < open[id].expires && !env.fault(step)
                && open[id].device in found.devices && found.devices[open[id].device].status == Active
                && lib.verify(found.devices[open[id].device].key, open[id].value, signature)
      // and with one audit row, unless writing it fails
      ensures
        var env, step, open := repository.env, old(repository.clock), old(challenges);
        var found, inTime := Found(old(repository.Contents()), {}, env, step), id in open && now < open[id].expires;
        var last, tables := if inTime then step + 1 else step, if inTime then Found(found, {}, env, step + 1) else found;
        var row := if id !in open then Entry(ChallengeRejected, "", false, now)
                   else if !inTime then Entry(ChallengeRejected, open[id].device, false, now)
                   else if ok then Entry(LoginSuccess, open[id].device, true, now)
                   else Entry(AuthenticationFailure, open[id].device, false, now);
        repository.Contents() == if env.fault(last) then tables else tables.(audit := tables.audit + [row])
    {
      VerifyingExactly(lib, challenges, repository.Contents(), repository.env, repository.clock, id, signature, now);
      VerifyKeepsTables(lib, challenges, repository.Contents(), repository.env, repository.clock, id, signature, now);
      ok := TakeAndJudge(lib, id, signature, now);
    }

    /** Its steps: taking the challenge under the lock, and judging the answer. */
    method TakeAndJudge(lib: Library, id: string, signature: Bytes, now: int) returns (ok: bool)
      requires Valid()
      modifies this, repository
      ensures Valid() && (id in old(issued) ==> id !in challenges)
      ensures challenges == Mixed(old(challenges) - {id}, old(issued), calls(old(repository.clock)))
      ensures CallEnd(ok, repository.Contents())
              == VerifyOf(lib, old(challenges), old(repository.Contents()), repository.env, old(repository.clock),
                          id, signature, now)
    {
      var found := id in challenges;
      var challenge := if found then challenges[id] else Challenge("", [], 0);
      challenges := challenges - {id};
      Unlock(repository.clock);
      if !found || now >= challenge.expires {
        repository.Audit(Entry(ChallengeRejected, challenge.device, false, now));
        return false;
      }
      ok := VerifyAnswer(lib, challenge, signature, now);
    }

    /** Reads the challenged device and checks the signature under its key. */
    method VerifyAnswer(lib: Library, challenge: Challenge, signature: Bytes, now: int) returns (ok: bool)
      modifies repository
      ensures
        var env, step := repository.env, old(repository.clock);
        var read := Found(old(repository.Contents()), {}, env, step);
        var verdict := JudgeAnswer(lib, challenge, read, env.fault(step), signature);
        && ok == (verdict.event == LoginSuccess)
        && repository.Contents() == AuditedAt(read, env, step + 1, Entry(verdict.event, verdict.device, ok, now))
    {
      var device := repository.Get(challenge.device);
      if device.None? || device.value.status != Active {
        repository.Audit(Entry(AuthenticationFailure, challenge.device, false, now));
        return false;
      }
      if !lib.verify(device.value.key, challenge.value, signature) {
        repository.Audit(Entry(AuthenticationFailure, challenge.device, false, now));
        return false;
      }
      repository.Audit(Entry(LoginSuccess, challenge.device, true, now));
      ok := true;
    }
  }
}
