/**
  The self-update: three binaries replaced in turn, services restarted and
  checked, and a rollback on failure.

  The host is a file system, a fault oracle consulted once per operation, and a
  history of every state the file system goes through, with the commands run in
  between. A stop at any step leaves the host in one of the recorded states, so
  what is proved of every entry of the history holds wherever the update is cut.
  */
module Updates {

  import opened Shared

  datatype Name = Cli | Agent | Web

  const NAMES: seq<Name> := [Cli, Agent, Web]

  datatype Path =
    | Target(name: Name)
    | Backup(name: Name)
    | Temp(id: nat)
    | Other(path: string)

  type Files = map<Path, Bytes>

  /** One recorded moment: a file operation's result, or a command and its verdict. */
  datatype Event =
    | Disk(files: Files)
    | Restart(files: Files, service: string, ok: bool)
    | IsActive(files: Files, service: string, ok: bool)
    | Doctor(files: Files, ok: bool)

  /** How an update ended, and at which binary when a replacement failed. */
  datatype Outcome =
    | Rejected
    | Installed
    | BackupFailed(at: Name)
    | ReplaceFailed(at: Name)
    | CheckFailed

  predicate Same(p: Path, before: Files, now: Files) {
    (p in before <==> p in now) && (p in before ==> now[p] == before[p])
  }

  predicate Holds(files: Files, p: Path, data: Bytes) {
    p in files && files[p] == data
  }

  /** Every binary that existed on entry is still whole, in place or in its backup. */
  ghost predicate Safe(before: Files, now: Files) {
    forall n :: Target(n) in before ==>
      Holds(now, Target(n), before[Target(n)]) || Holds(now, Backup(n), before[Target(n)])
  }

  /** Nothing outside targets, backups and temporary files is touched. */
  ghost predicate Framed(before: Files, now: Files) {
    forall p: Path :: p.Other? ==> Same(p, before, now)
  }

  ghost predicate AllNew(release: map<Name, Bytes>, now: Files)
    requires forall n :: n in release
  {
    forall n :: Holds(now, Target(n), release[n])
  }

  /** The targets that are present hold their old bytes. */
  ghost predicate AllOld(before: Files, now: Files) {
    forall n :: Target(n) in now ==> Target(n) in before && now[Target(n)] == before[Target(n)]
  }

  /** The name is back as on entry: target restored, no backup but an older one. */
  ghost predicate Restored(before: Files, now: Files, n: Name) {
    Same(Target(n), before, now) && (Backup(n) in now ==> Same(Backup(n), before, now))
  }

  /** One name while the loop has replaced those in `installed` and not reached the rest. */
  ghost predicate Reached(before: Files, release: map<Name, Bytes>, now: Files, n: Name, installed: seq<Name>)
    requires forall m :: m in release
  {
    if n in installed then
      && Target(n) in before
      && Holds(now, Target(n), release[n])
      && Holds(now, Backup(n), before[Target(n)])
    else
      Same(Target(n), before, now) && Same(Backup(n), before, now)
  }

  /** Only temporary files differ. */
  ghost predicate TempsOnly(before: Files, now: Files) {
    forall p: Path :: !p.Temp? ==> Same(p, before, now)
  }

  lemma TempsOnlyTransitive(a: Files, b: Files, c: Files)
    requires TempsOnly(a, b) && TempsOnly(b, c)
    ensures TempsOnly(a, c)
  {
    forall p: Path | !p.Temp?
      ensures Same(p, a, c)
    {
      assert Same(p, a, b) && Same(p, b, c);
    }
  }

  /** Only one target and temporary files differ. */
  ghost predicate Elsewhere(n: Name, before: Files, now: Files) {
    forall p: Path :: !p.Temp? && p != Target(n) ==> Same(p, before, now)
  }

  /** Only one name's target and backup, and temporary files, differ. */
  ghost predicate OnlyName(n: Name, before: Files, now: Files) {
    forall p: Path :: !p.Temp? && p != Target(n) && p != Backup(n) ==> Same(p, before, now)
  }

  lemma NameStepIsSafe(before: Files, n: Name, was: Files, now: Files)
    requires Safe(before, was) && Framed(before, was) && OnlyName(n, was, now)
    requires Target(n) in before ==>
               Holds(now, Target(n), before[Target(n)]) || Holds(now, Backup(n), before[Target(n)])
    ensures Safe(before, now) && Framed(before, now)
  {
    forall m | Target(m) in before
      ensures Holds(now, Target(m), before[Target(m)]) || Holds(now, Backup(m), before[Target(m)])
    {
      if m != n {
        assert Same(Target(m), was, now) && Same(Backup(m), was, now);
      }
    }
    forall p: Path | p.Other?
      ensures Same(p, before, now)
    {
      assert Same(p, before, was) && Same(p, was, now);
    }
  }

  /** Working next to a target whose old bytes are in its backup loses nothing. */
  lemma ElsewhereStepIsSafe(before: Files, n: Name, was: Files, aside: Files, now: Files)
    requires Safe(before, aside) && Framed(before, aside)
    requires Target(n) in before && Holds(aside, Backup(n), before[Target(n)])
    requires OnlyName(n, was, aside) && Elsewhere(n, aside, now)
    ensures OnlyName(n, was, now) && Safe(before, now) && Framed(before, now)
    ensures Holds(now, Backup(n), before[Target(n)])
  {
    assert Same(Backup(n), aside, now);
    NameStepIsSafe(before, n, aside, now);
    forall p: Path | !p.Temp? && p != Target(n) && p != Backup(n)
      ensures Same(p, was, now)
    {
      assert Same(p, was, aside) && Same(p, aside, now);
    }
  }

  lemma ElsewhereThenTemps(n: Name, a: Files, b: Files, c: Files)
    requires Elsewhere(n, a, b) && TempsOnly(b, c)
    ensures Elsewhere(n, a, c)
    ensures Same(Target(n), b, c)
  {
    forall p: Path | !p.Temp? && p != Target(n)
      ensures Same(p, a, c)
    {
      assert Same(p, a, b) && Same(p, b, c);
    }
  }

  lemma TempsStepIsSafe(before: Files, n: Name, was: Files, now: Files)
    requires Safe(before, was) && Framed(before, was) && OnlyName(n, before, was) && TempsOnly(was, now)
    ensures Safe(before, now) && Framed(before, now) && OnlyName(n, before, now)
    ensures Same(Target(n), was, now) && Same(Backup(n), was, now)
  {
    assert Same(Target(n), was, now) && Same(Backup(n), was, now);
    NameStepIsSafe(before, n, was, now);
    forall p: Path | !p.Temp? && p != Target(n) && p != Backup(n)
      ensures Same(p, before, now)
    {
      assert Same(p, before, was) && Same(p, was, now);
    }
  }

  lemma DistinctSplit(names: seq<Name>, i: nat)
    requires Distinct(names) && i < |names|
    ensures names[..i + 1] == names[..i] + [names[i]]
    ensures names[i..] == [names[i]] + names[i + 1..]
    ensures names[i] !in names[..i] && names[i] !in names[i + 1..]
  {
  }

  // ------------------------------------------------------------------
  // Which operation fails, and what comes of it
  // ------------------------------------------------------------------

  /** At most one operation from number `at` on fails by itself. */
  ghost predicate AtMostOne(faults: Faults, at: nat) {
    forall k: nat, l: nat :: at <= k < l && faults(k) ==> !faults(l)
  }

  function Index(n: Name): (i: nat)
    ensures i < |NAMES| && NAMES[i] == n
  {
    match n
    case Cli => 0
    case Agent => 1
    case Web => 2
  }

  /** Operations spent on a binary that is replaced: removing an older backup, moving
      the target aside, then creating, writing, flushing, making executable, closing
      and renaming the temporary file, and removing what may be left of it. */
  const SPENT: nat := 9

  /** From creating a temporary file at operation `at` to closing it. */
  ghost predicate Writes(faults: Faults, at: nat, sync: bool) {
    Quiet(faults, at, at + if sync then 5 else 4)
  }

  /** The first operation after closing; a failure skips flushing and making executable. */
  ghost function WriteEnd(faults: Faults, at: nat, sync: bool): nat {
    if faults(at) then at + 1
    else if faults(at + 1) then at + 3
    else if sync && faults(at + 2) then at + 4
    else at + if sync then 5 else 4
  }

  ghost predicate Places(faults: Faults, at: nat, sync: bool) {
    Quiet(faults, at, at + if sync then 6 else 5)
  }

  ghost function PlaceEnd(faults: Faults, at: nat, sync: bool): nat {
    WriteEnd(faults, at, sync) + if Writes(faults, at, sync) then 1 else 0
  }

  /** The same with the removal of the temporary file, if one was created. */
  ghost function TidyEnd(faults: Faults, at: nat, sync: bool): nat {
    PlaceEnd(faults, at, sync) + if faults(at) then 0 else 1
  }

  /** The first `i` binaries are replaced, starting at operation `at`. */
  ghost predicate Passed(faults: Faults, at: nat, before: Files, i: nat)
    requires i <= |NAMES|
  {
    forall j :: 0 <= j < i ==>
      Target(NAMES[j]) in before && Quiet(faults, at + SPENT * j + 1, at + SPENT * j + 8)
  }

  lemma PassedNext(faults: Faults, at: nat, before: Files, i: nat)
    requires i < |NAMES| && Passed(faults, at, before, i)
    requires Target(NAMES[i]) in before && !faults(at + SPENT * i + 1) && Places(faults, at + SPENT * i + 2, true)
    ensures Passed(faults, at, before, i + 1)
    ensures TidyEnd(faults, at + SPENT * i + 2, true) == at + SPENT * (i + 1)
  {
  }

  /** How many commands check `services` services: a restart and a question for each,
      and the doctor. */
  function Commands(services: nat): nat {
    2 * services + 1
  }

  ghost predicate AreRestarts(files: Files, services: seq<string>, steps: seq<Event>, ok: bool) {
    && |steps| <= |services| && (if ok then |steps| == |services| else |steps| > 0)
    && forall k :: 0 <= k < |steps| ==> steps[k] == Restart(files, services[k], k + 1 < |steps| || ok)
  }

  ghost predicate AreQuestions(files: Files, services: seq<string>, steps: seq<Event>, ok: bool) {
    && |steps| <= |services| && (if ok then |steps| == |services| else |steps| > 0)
    && forall k :: 0 <= k < |steps| ==> steps[k] == IsActive(files, services[k], k + 1 < |steps| || ok)
  }

  /** What a check ran, all against the same files: the restart of each service, then the
      question whether each is active, then the doctor, up to the first that failed. */
  ghost predicate Ran(files: Files, services: seq<string>, steps: seq<Event>, ok: bool) {
    var m := |services|;
    if !ok && |steps| <= m then
      AreRestarts(files, services, steps, false)
    else if !ok && |steps| <= 2 * m then
      AreRestarts(files, services, steps[..m], true) && AreQuestions(files, services, steps[m..], false)
    else
      && |steps| == 2 * m + 1
      && AreRestarts(files, services, steps[..m], true)
      && AreQuestions(files, services, steps[m..2 * m], true)
      && steps[2 * m] == Doctor(files, ok)
  }

  /** Restarts, then questions if those passed, then the doctor if those did too. */
  lemma ChecksAre(files: Files, services: seq<string>, restarts: seq<Event>, restarted: bool,
                  questions: seq<Event>, active: bool, doctor: seq<Event>, healthy: bool)
    requires AreRestarts(files, services, restarts, restarted)
    requires if restarted then AreQuestions(files, services, questions, active) else questions == [] && !active
    requires if active then doctor == [Doctor(files, healthy)] else doctor == [] && !healthy
    ensures Ran(files, services, restarts + questions + doctor, healthy)
    ensures forall e :: e in restarts + questions + doctor ==> e.files == files
  {
    var all, m := restarts + questions + doctor, |services|;
    if !restarted {
      assert all == restarts;
    } else {
      assert all[..m] == restarts;
      if active {
        assert all[m..2 * m] == questions;
      } else {
        assert all[m..] == questions;
      }
    }
  }

  /** The outcome of an update that starts at operation `at`, from nothing but which
      operations fail and which targets exist. */
  ghost predicate Comes(faults: Faults, at: nat, before: Files, services: nat, outcome: Outcome) {
    match outcome
    case Rejected => false
    case BackupFailed(n) =>
      && Passed(faults, at, before, Index(n))
      && (Target(n) !in before || faults(at + SPENT * Index(n) + 1))
    case ReplaceFailed(n) =>
      && Passed(faults, at, before, Index(n))
      && Target(n) in before && !faults(at + SPENT * Index(n) + 1)
      && !Places(faults, at + SPENT * Index(n) + 2, true)
    case CheckFailed =>
      && Passed(faults, at, before, |NAMES|)
      && !Quiet(faults, at + SPENT * |NAMES|, at + SPENT * |NAMES| + Commands(services))
    case Installed =>
      && Passed(faults, at, before, |NAMES|)
      && Quiet(faults, at + SPENT * |NAMES|, at + SPENT * |NAMES| + Commands(services))
  }

  /** Of `count` operations from `at` on the last failed, unless `ok`, and no other did. */
  ghost predicate StoppedAt(faults: Faults, at: nat, count: nat, ok: bool) {
    if ok then Quiet(faults, at, at + count)
    else count > 0 && Quiet(faults, at, at + count - 1) && faults(at + count - 1)
  }

  lemma StoppedLater(faults: Faults, at: nat, count: nat, more: nat, ok: bool)
    requires StoppedAt(faults, at, count, true) && StoppedAt(faults, at + count, more, ok)
    ensures StoppedAt(faults, at, count + more, ok)
  {
  }

  lemma FirstFaultIs(faults: Faults, at: nat, count: nat, done: nat, ok: bool)
    requires done <= count && StoppedAt(faults, at, done, ok) && (ok ==> done == count)
    ensures FirstFault(faults, at, at + count) == at + if ok then count else done - 1
  {
  }

  lemma ChecksEnd(faults: Faults, at: nat, files: Files, services: seq<string>, restarts: seq<Event>, restarted: bool,
                  questions: seq<Event>, active: bool, doctor: seq<Event>, healthy: bool)
    requires AreRestarts(files, services, restarts, restarted) && StoppedAt(faults, at, |restarts|, restarted)
    requires if restarted then
               && AreQuestions(files, services, questions, active)
               && StoppedAt(faults, at + |restarts|, |questions|, active)
             else
               questions == [] && !active
    requires if active then
               doctor == [Doctor(files, healthy)] && healthy == !faults(at + |restarts| + |questions|)
             else
               doctor == [] && !healthy
    ensures
      var all, end := restarts + questions + doctor, at + Commands(|services|);
      && (healthy <==> FirstFault(faults, at, end) == end)
      && at + |all| == FirstFault(faults, at, end) + (if healthy then 0 else 1)
      && Ran(files, services, all, healthy)
      && forall e :: e in all ==> e.files == files
  {
    ChecksAre(files, services, restarts, restarted, questions, active, doctor, healthy);
    if restarted {
      StoppedLater(faults, at, |restarts|, |questions|, active);
    }
    if active {
      StoppedLater(faults, at, |restarts| + |questions|, 1, healthy);
    }
    FirstFaultIs(faults, at, Commands(|services|), |restarts + questions + doctor|, healthy);
  }

  /** The first binary from `i` on that is not replaced, or how many there are. */
  ghost function Replaced(faults: Faults, at: nat, before: Files, i: nat): (k: nat)
    requires i <= |NAMES|
    ensures i <= k <= |NAMES|
    decreases |NAMES| - i
  {
    if i < |NAMES| && Target(NAMES[i]) in before && Quiet(faults, at + SPENT * i + 1, at + SPENT * i + 8)
    then Replaced(faults, at, before, i + 1) else i
  }

  /** The outcome of an update that starts at operation `at`, computed. */
  ghost function OutcomeOf(faults: Faults, at: nat, before: Files, services: nat): Outcome {
    var i := Replaced(faults, at, before, 0);
    var commands := at + SPENT * |NAMES|;
    if i < |NAMES| then
      Failure(NAMES[i], Target(NAMES[i]) in before && !faults(at + SPENT * i + 1))
    else if Quiet(faults, commands, commands + Commands(services)) then Installed
    else CheckFailed
  }

  /** The operation at which the rollback of a failed update begins. */
  ghost function RollbackAt(faults: Faults, at: nat, services: nat, outcome: Outcome): nat {
    match outcome
    case BackupFailed(n) => at + SPENT * Index(n) + 2
    case ReplaceFailed(n) => TidyEnd(faults, at + SPENT * Index(n) + 2, true)
    case _ => FirstFault(faults, at + SPENT * |NAMES|, at + SPENT * |NAMES| + Commands(services)) + 1
  }

  function Failure(n: Name, moved: bool): Outcome {
    if moved then ReplaceFailed(n) else BackupFailed(n)
  }

  lemma FailureComes(faults: Faults, at: nat, before: Files, services: nat, i: nat, moved: bool)
    requires i < |NAMES| && Passed(faults, at, before, i)
    requires moved <==> Target(NAMES[i]) in before && !faults(at + SPENT * i + 1)
    requires moved ==> !Places(faults, at + SPENT * i + 2, true)
    ensures Index(NAMES[i]) == i
    ensures Comes(faults, at, before, services, Failure(NAMES[i], moved))
    ensures RollbackAt(faults, at, services, Failure(NAMES[i], moved))
            == if moved then TidyEnd(faults, at + SPENT * i + 2, true) else at + SPENT * i + 2
  {
    EveryNameIsListed();
  }

  /** How many names the rollback walks. The name whose replacement failed is not among
      them in the source, and is in the variant. */
  function Walked(outcome: Outcome, restoreCurrent: bool): (count: nat)
    ensures count <= |NAMES|
  {
    match outcome
    case BackupFailed(n) => Index(n)
    case ReplaceFailed(n) => Index(n) + if restoreCurrent then 1 else 0
    case CheckFailed => |NAMES|
    case _ => 0
  }

  /** The rename that restores the name with index `i` does not fail. */
  ghost predicate RenamesBack(faults: Faults, rollbackAt: nat, i: nat) {
    !faults(rollbackAt + 2 * i + 1)
  }

  ghost predicate RollbackWorks(faults: Faults, rollbackAt: nat, walked: nat) {
    forall i: nat :: i < walked ==> RenamesBack(faults, rollbackAt, i)
  }

  /** What a walked name is left with, having been `was` before the rollback. */
  ghost predicate PutBack(before: Files, was: Files, now: Files, n: Name, worked: bool) {
    && Target(n) in before
    && if worked then Holds(now, Target(n), before[Target(n)]) && Backup(n) !in now
       else Holds(now, Backup(n), before[Target(n)]) && (Target(n) !in now || Same(Target(n), was, now))
  }

  /** The first `i` of `names` are put back, and nothing is done to the other names. */
  ghost predicate PutBackUpTo(before: Files, first: Files, now: Files, names: seq<Name>, i: nat,
                              faults: Faults, rollbackAt: nat)
    requires i <= |names|
  {
    && (forall n :: n in names[..i] ==> PutBack(before, first, now, n, RenamesBack(faults, rollbackAt, Index(n))))
    && (forall n :: n !in names[..i] ==> Same(Target(n), first, now) && Same(Backup(n), first, now))
  }

  lemma RestIsUntouched(before: Files, first: Files, now: Files, names: seq<Name>, i: nat,
                        faults: Faults, rollbackAt: nat)
    requires names <= NAMES && i < |names|
    requires PutBackUpTo(before, first, now, names, i, faults, rollbackAt)
    ensures Same(Target(names[i]), first, now) && Same(Backup(names[i]), first, now)
  {
    EveryNameIsListed();
    DistinctSplit(names, i);
  }

  lemma PutBackMore(before: Files, first: Files, was: Files, now: Files, names: seq<Name>, i: nat,
                    faults: Faults, rollbackAt: nat)
    requires names <= NAMES && i < |names| && OnlyName(names[i], was, now)
    requires PutBackUpTo(before, first, was, names, i, faults, rollbackAt)
    requires PutBack(before, was, now, names[i], !faults(rollbackAt + 2 * i + 1))
    ensures PutBackUpTo(before, first, now, names, i + 1, faults, rollbackAt)
  {
    EveryNameIsListed();
    DistinctSplit(names, i);
    assert NAMES[i] == names[i] && Index(names[i]) == i;
    forall m | m != names[i]
      ensures Same(Target(m), was, now) && Same(Backup(m), was, now)
    {
    }
    forall n | n in names[..i + 1]
      ensures PutBack(before, first, now, n, RenamesBack(faults, rollbackAt, Index(n)))
    {
      if n == names[i] {
        assert Same(Target(n), first, was);
      }
    }
  }

  /** What a failed update leaves of one name. */
  ghost predicate LeftBehind(faults: Faults, at: nat, before: Files, release: map<Name, Bytes>, services: nat,
                             now: Files, outcome: Outcome, restoreCurrent: bool, n: Name)
    requires n in release
  {
    var rollbackAt := RollbackAt(faults, at, services, outcome);
    if Index(n) < Walked(outcome, restoreCurrent) then
      && Target(n) in before
      && if RenamesBack(faults, rollbackAt, Index(n))
         then Holds(now, Target(n), before[Target(n)]) && Backup(n) !in now
         else Holds(now, Backup(n), before[Target(n)])
              && (Target(n) in now ==> outcome != ReplaceFailed(n) && now[Target(n)] == release[n])
    else if outcome == ReplaceFailed(n) then
      Target(n) in before && Target(n) !in now && Holds(now, Backup(n), before[Target(n)])
    else
      && Same(Target(n), before, now)
      && if outcome == BackupFailed(n) && !faults(at + SPENT * Index(n))
         then Backup(n) !in now else Same(Backup(n), before, now)
  }

  lemma EveryNameIsListed()
    ensures Distinct(NAMES) && forall n :: n in NAMES
    ensures forall i :: 0 <= i < |NAMES| ==> Index(NAMES[i]) == i
  {
    forall n: Name
      ensures n in NAMES
    {
      match n
      case Cli => assert NAMES[0] == n;
      case Agent => assert NAMES[1] == n;
      case Web => assert NAMES[2] == n;
    }
  }

  lemma OtherNamesKeep(before: Files, release: map<Name, Bytes>, was: Files, now: Files,
                       n: Name, installed: seq<Name>)
    requires forall m :: m in release
    requires OnlyName(n, was, now)
    requires forall m :: Reached(before, release, was, m, installed)
    ensures forall m :: m != n ==> Reached(before, release, now, m, installed)
    ensures forall m :: m != n ==> Reached(before, release, now, m, installed + [n])
  {
    forall m | m != n
      ensures Reached(before, release, now, m, installed)
      ensures Reached(before, release, now, m, installed + [n])
    {
      assert Same(Target(m), was, now) && Same(Backup(m), was, now);
      assert Reached(before, release, was, m, installed);
    }
  }

  ghost predicate Complete(release: map<Name, Bytes>) {
    forall n :: n in release && release[n] != []
  }

  /** The three new binaries are in place, the last events before position `checked`
      are all the checks, each passed, and from the first of them on the targets no
      longer change. */
  ghost predicate CheckedOn(release: map<Name, Bytes>, services: seq<string>, steps: seq<Event>,
                            checked: nat, now: Files)
  {
    var start := checked - Commands(|services|);
    && (forall n :: n in release)
    && AllNew(release, now)
    && 0 <= start <= checked <= |steps|
    && Ran(steps[start].files, services, steps[start..checked], true)
    && (forall e :: e in steps[start..] ==> AllNew(release, e.files))
    && (forall e :: e in steps[checked..] ==> e.Disk?)
  }

  lemma ReachedMeansNew(before: Files, release: map<Name, Bytes>, now: Files)
    requires forall m :: m in release
    requires forall m :: Reached(before, release, now, m, NAMES)
    ensures AllNew(release, now)
  {
    EveryNameIsListed();
    forall m
      ensures Holds(now, Target(m), release[m])
    {
      assert Reached(before, release, now, m, NAMES);
    }
  }

  lemma ReachedMeansBackedUp(before: Files, release: map<Name, Bytes>, now: Files)
    requires forall m :: m in release
    requires forall m :: Reached(before, release, now, m, NAMES)
    ensures Distinct(NAMES)
    ensures forall m :: Target(m) in before && Holds(now, Backup(m), before[Target(m)])
  {
    EveryNameIsListed();
    forall m
      ensures Target(m) in before && Holds(now, Backup(m), before[Target(m)])
    {
      assert Reached(before, release, now, m, NAMES);
    }
  }

  lemma LeftBehindMeansOld(faults: Faults, at: nat, before: Files, release: map<Name, Bytes>, services: nat,
                           now: Files, outcome: Outcome, restoreCurrent: bool)
    requires forall n :: n in release
    requires RollbackWorks(faults, RollbackAt(faults, at, services, outcome), Walked(outcome, restoreCurrent))
    requires forall n :: LeftBehind(faults, at, before, release, services, now, outcome, restoreCurrent, n)
    ensures AllOld(before, now)
  {
    forall n | Target(n) in now
      ensures Target(n) in before && now[Target(n)] == before[Target(n)]
    {
      assert LeftBehind(faults, at, before, release, services, now, outcome, restoreCurrent, n);
    }
  }

  /** The names a rollback walks after `n` failed are those before it, and it. */
  lemma WalkedNames(n: Name, moved: bool, restoreCurrent: bool)
    ensures
      var installed := NAMES[..Index(n)];
      var names := if moved && restoreCurrent then installed + [n] else installed;
      && names <= NAMES && n !in installed
      && forall m :: && (m in installed <==> Index(m) < Index(n))
                     && (m in names <==> Index(m) < Walked(Failure(n, moved), restoreCurrent))
  {
    EveryNameIsListed();
    DistinctSplit(NAMES, Index(n));
  }

  lemma GivenUp(faults: Faults, at: nat, before: Files, release: map<Name, Bytes>, services: nat,
                failed: Files, now: Files, n: Name, moved: bool, restoreCurrent: bool, m: Name)
    requires forall k :: k in release
    requires m != n ==> Reached(before, release, failed, m, NAMES[..Index(n)])
    requires m == n ==>
               if moved then
                 Target(n) in before && Holds(failed, Backup(n), before[Target(n)]) && Target(n) !in failed
               else
                 Same(Target(n), before, failed)
                 && if faults(at + SPENT * Index(n)) then Same(Backup(n), before, failed) else Backup(n) !in failed
    requires if Index(m) < Walked(Failure(n, moved), restoreCurrent) then
               PutBack(before, failed, now, m,
                       RenamesBack(faults, RollbackAt(faults, at, services, Failure(n, moved)), Index(m)))
             else
               Same(Target(m), failed, now) && Same(Backup(m), failed, now)
    ensures LeftBehind(faults, at, before, release, services, now, Failure(n, moved), restoreCurrent, m)
  {
    WalkedNames(n, moved, restoreCurrent);
  }

  lemma StillNew(release: map<Name, Bytes>, before: Files, was: Files, now: Files)
    requires forall m :: m in release
    requires AllNew(release, was) && Framed(before, was)
    requires forall p: Path :: !p.Backup? ==> Same(p, was, now)
    ensures AllNew(release, now) && Framed(before, now)
  {
    forall n
      ensures Holds(now, Target(n), release[n])
    {
      assert Same(Target(n), was, now) && Holds(was, Target(n), release[n]);
    }
    forall p: Path | p.Other?
      ensures Same(p, before, now)
    {
      assert Same(p, was, now) && Same(p, before, was);
    }
  }

  /** Old binaries survive every step up to position `checked`; nothing else ever changes. */
  ghost predicate NeverLost(before: Files, steps: seq<Event>, checked: nat) {
    && checked <= |steps|
    && (forall e :: e in steps[..checked] ==> Safe(before, e.files))
    && (forall e :: e in steps ==> Framed(before, e.files))
  }

  /** Every restart finds the targets that are present all new or all old. */
  ghost predicate Unmixed(before: Files, release: map<Name, Bytes>, steps: seq<Event>)
    requires forall n :: n in release
  {
    forall e :: e in steps && e.Restart? ==> AllNew(release, e.files) || AllOld(before, e.files)
  }

  lemma NeverLostLater(before: Files, first: seq<Event>, steps: seq<Event>, checked: nat)
    requires NeverLost(before, first, |first|) && NeverLost(before, steps, checked)
    ensures NeverLost(before, first + steps, |first| + checked)
  {
    assert (first + steps)[..|first| + checked] == first[..|first|] + steps[..checked];
  }

  lemma ConfirmedSteps(before: Files, release: map<Name, Bytes>, services: seq<string>, tested: Files,
                       checks: seq<Event>, more: seq<Event>, now: Files)
    requires forall n :: n in release
    requires Safe(before, tested) && Framed(before, tested) && AllNew(release, tested) && AllNew(release, now)
    requires Ran(tested, services, checks, true)
    requires forall e :: e in checks ==> e.files == tested
    requires forall e :: e in more ==> e.Disk? && AllNew(release, e.files) && Framed(before, e.files)
    ensures NeverLost(before, checks + more, |checks|)
    ensures CheckedOn(release, services, checks + more, |checks|, now)
    ensures forall e :: e in checks + more ==> AllNew(release, e.files)
  {
    var steps := checks + more;
    assert steps[..|checks|] == checks && steps[|checks|..] == more && steps[0..] == steps;
    assert steps[0] == checks[0] && checks[0] in checks;
    assert steps[0..|checks|] == checks;
  }

  lemma WithdrawnSteps(before: Files, tested: Files, checks: seq<Event>, more: seq<Event>)
    requires Safe(before, tested) && Framed(before, tested)
    requires forall e :: e in checks ==> e.files == tested
    requires forall e :: e in more ==> Safe(before, e.files) && Framed(before, e.files)
    ensures NeverLost(before, checks + more, |checks + more|)
  {
    assert (checks + more)[..|checks + more|] == checks + more;
  }

  lemma CheckedLater(release: map<Name, Bytes>, services: seq<string>, first: seq<Event>,
                     steps: seq<Event>, checked: nat, now: Files)
    requires CheckedOn(release, services, steps, checked, now)
    ensures CheckedOn(release, services, first + steps, |first| + checked, now)
  {
    var start := checked - Commands(|services|);
    assert (first + steps)[|first| + start..|first| + checked] == steps[start..checked];
    assert (first + steps)[|first| + start..] == steps[start..];
    assert (first + steps)[|first| + checked..] == steps[checked..];
  }

  /** The last events are the restarts of all services, in order, on the given files. */
  ghost predicate EndsWithRestarts(steps: seq<Event>, services: seq<string>, files: Files) {
    && |services| <= |steps|
    && AllRestarted(steps[|steps| - |services|..], services, files)
  }

  ghost predicate AllRestarted(steps: seq<Event>, services: seq<string>, files: Files) {
    && |steps| == |services|
    && forall k :: 0 <= k < |services| ==>
         steps[k].Restart? && steps[k].service == services[k] && steps[k].files == files
  }

  lemma EndsLater(first: seq<Event>, steps: seq<Event>, services: seq<string>, files: Files)
    requires EndsWithRestarts(steps, services, files)
    ensures EndsWithRestarts(first + steps, services, files)
  {
    var all := first + steps;
    assert all[|all| - |services|..] == steps[|steps| - |services|..];
  }

  /** When the rollback's renames work, every restart so far found all new or all old. */
  lemma UnmixedAfterRollback(faults: Faults, at: nat, before: Files, release: map<Name, Bytes>, services: seq<string>,
                             steps: seq<Event>, now: Files, outcome: Outcome, restoreCurrent: bool)
    requires forall n :: n in release
    requires forall n :: LeftBehind(faults, at, before, release, |services|, now, outcome, restoreCurrent, n)
    requires forall e :: e in steps && e.Restart? ==> AllNew(release, e.files) || e.files == now
    ensures RollbackWorks(faults, RollbackAt(faults, at, |services|, outcome), Walked(outcome, restoreCurrent))
            ==> Unmixed(before, release, steps)
  {
    if RollbackWorks(faults, RollbackAt(faults, at, |services|, outcome), Walked(outcome, restoreCurrent)) {
      LeftBehindMeansOld(faults, at, before, release, |services|, now, outcome, restoreCurrent);
    }
  }

  /** What a confirmation established holds of the whole update. */
  lemma ConfirmedLater(faults: Faults, at: nat, before: Files, release: map<Name, Bytes>, services: seq<string>,
                       earlier: seq<Event>, first: seq<Event>, steps: seq<Event>, checked: nat, now: Files,
                       outcome: Outcome, restoreCurrent: bool)
    returns (all: seq<Event>, allChecked: nat)
    requires forall n :: n in release
    requires NeverLost(before, first, |first|) && forall e :: e in first ==> !e.Restart?
    requires NeverLost(before, steps, checked)
    requires forall e :: e in steps && e.Restart? ==> AllNew(release, e.files) || (!outcome.Installed? && e.files == now)
    requires outcome.Installed? ==> CheckedOn(release, services, steps, checked, now)
    requires !outcome.Installed? ==>
               && checked == |steps| && EndsWithRestarts(steps, services, now)
               && forall n :: LeftBehind(faults, at, before, release, |services|, now, outcome, restoreCurrent, n)
    ensures earlier + first + steps == earlier + all
    ensures NeverLost(before, all, allChecked)
    ensures outcome.Installed? ==> CheckedOn(release, services, all, allChecked, now)
    ensures !outcome.Installed? ==> allChecked == |all| && EndsWithRestarts(all, services, now)
    ensures RollbackWorks(faults, RollbackAt(faults, at, |services|, outcome), Walked(outcome, restoreCurrent))
            ==> Unmixed(before, release, all)
  {
    all, allChecked := first + steps, |first| + checked;
    Appended(earlier, first, steps);
    NeverLostLater(before, first, steps, checked);
    if outcome.Installed? {
      CheckedLater(release, services, first, steps, checked, now);
    } else {
      EndsLater(first, steps, services, now);
      UnmixedAfterRollback(faults, at, before, release, services, all, now, outcome, restoreCurrent);
    }
  }

  lemma Appended(first: seq<Event>, steps: seq<Event>, more: seq<Event>)
    ensures first + steps + more == first + (steps + more)
  {
  }

  class Host {
    const faults: nat -> bool
    var clock: nat
    var files: Files
    var nextTemp: nat
    ghost var history: seq<Event>

    constructor (faults: nat -> bool, files: Files, nextTemp: nat)
      requires forall k: nat :: Temp(k) in files ==> k < nextTemp
      ensures Valid() && this.faults == faults && this.files == files
      ensures clock == 0 && history == []
    {
      this.faults, this.files, this.nextTemp := faults, files, nextTemp;
      clock, history := 0, [];
    }

    /** Temporary names are fresh. */
    ghost predicate Valid()
      reads this
    {
      forall k: nat :: Temp(k) in files ==> k < nextTemp
    }

    // ----------------------------------------------------------------
    // Operations
    // ----------------------------------------------------------------

    method Attempt() returns (ok: bool)
      modifies this`clock
      ensures ok == !faults(old(clock)) && clock == old(clock) + 1
    {
      ok := !faults(clock);
      clock := clock + 1;
    }

    method Remove(p: Path) returns (ok: bool)
      requires Valid()
      modifies this
      ensures Valid()
      ensures files == if ok then old(files) - {p} else old(files)
      ensures ok == (!faults(old(clock)) && p in old(files)) && clock == old(clock) + 1
      ensures history == old(history) + [Disk(files)]
    {
      ok := Attempt();
      ok := ok && p in files;
      if ok {
        files := files - {p};
      }
      history := history + [Disk(files)];
    }

    /** An atomic rename: all or nothing, replacing the destination. */
    method Rename(src: Path, dst: Path) returns (ok: bool)
      requires Valid() && src != dst && !dst.Temp?
      modifies this
      ensures Valid()
      ensures ok == (!faults(old(clock)) && src in old(files)) && clock == old(clock) + 1
      ensures files == if ok then (old(files) - {src})[dst := old(files)[src]] else old(files)
      ensures history == old(history) + [Disk(files)]
    {
      ok := Attempt();
      ok := ok && src in files;
      if ok {
        files := (files - {src})[dst := files[src]];
      }
      history := history + [Disk(files)];
    }

    method CreateTemp() returns (ok: bool, temp: Path)
      requires Valid()
      modifies this
      ensures Valid()
      ensures ok == !faults(old(clock)) && clock == old(clock) + 1
      ensures temp.Temp? && temp !in old(files)
      ensures files == if ok then old(files)[temp := []] else old(files)
      ensures history == old(history) + [Disk(files)]
    {
      temp := Temp(nextTemp);
      ok := Attempt();
      if ok {
        files, nextTemp := files[temp := []], nextTemp + 1;
      }
      history := history + [Disk(files)];
    }

    /** A failed write may leave any part of the data behind. */
    method Write(temp: Path, data: Bytes) returns (ok: bool)
      requires Valid() && temp.Temp? && temp in files
      modifies this
      ensures Valid() && ok == !faults(old(clock)) && clock == old(clock) + 1
      ensures TempsOnly(old(files), files) && (ok ==> Holds(files, temp, data))
      ensures history == old(history) + [Disk(files)]
    {
      ok := Attempt();
      var size :| 0 <= size <= |data|;
      files := files[temp := if ok then data else data[..size]];
      history := history + [Disk(files)];
    }

    method RestartService(service: string) returns (ok: bool)
      modifies this`clock, this`history
      ensures ok == !faults(old(clock)) && clock == old(clock) + 1
      ensures history == old(history) + [Restart(files, service, ok)]
    {
      ok := Attempt();
      history := history + [Restart(files, service, ok)];
    }

    method CheckService(service: string) returns (ok: bool)
      modifies this`clock, this`history
      ensures ok == !faults(old(clock)) && clock == old(clock) + 1
      ensures history == old(history) + [IsActive(files, service, ok)]
    {
      ok := Attempt();
      history := history + [IsActive(files, service, ok)];
    }

    method RunDoctor() returns (ok: bool)
      modifies this`clock, this`history
      ensures ok == !faults(old(clock)) && clock == old(clock) + 1
      ensures history == old(history) + [Doctor(files, ok)]
    {
      ok := Attempt();
      history := history + [Doctor(files, ok)];
    }

    // ----------------------------------------------------------------
    // The update
    // ----------------------------------------------------------------

    /** Writes `data` to a fresh temporary file, whole if `ok`. */
    method WriteTemp(data: Bytes, sync: bool)
      returns (ok: bool, created: bool, temp: Path, ghost steps: seq<Event>)
      requires Valid()
      modifies this
      ensures Valid() && ok == Writes(faults, old(clock), sync) && created == !faults(old(clock))
      ensures clock == WriteEnd(faults, old(clock), sync)
      ensures temp.Temp? && (ok ==> created && Holds(files, temp, data))
      ensures TempsOnly(old(files), files)
      ensures history == old(history) + steps
      ensures forall e :: e in steps ==> e.Disk? && TempsOnly(old(files), e.files)
    {
      created, temp := CreateTemp();
      ok, steps := created, [Disk(files)];
      if !created {
        return;
      }
      ghost var empty := files;
      ok := Write(temp, data);
      TempsOnlyTransitive(old(files), empty, files);
      steps := steps + [Disk(files)];
      if ok && sync {
        ok := Attempt();     // flush to disk
      }
      if ok {
        ok := Attempt();     // make executable
      }
      var closed := Attempt();
      ok := ok && closed;
    }

    /** Puts `data` in place of an absent target. The target changes only by the
        final rename, so it is absent or whole at every step. The temporary file,
        if one was created, may be left for the caller to remove. */
    method PutInPlace(n: Name, data: Bytes, sync: bool)
      returns (ok: bool, created: bool, temp: Path, ghost steps: seq<Event>)
      requires Valid() && Target(n) !in files
      modifies this
      ensures Valid() && ok == Places(faults, old(clock), sync) && created == !faults(old(clock))
      ensures clock == PlaceEnd(faults, old(clock), sync)
      ensures temp.Temp? && Elsewhere(n, old(files), files)
      ensures if ok then Holds(files, Target(n), data) else Target(n) !in files
      ensures history == old(history) + steps
      ensures forall e :: e in steps ==> e.Disk? && Elsewhere(n, old(files), e.files)
    {
      ok, created, temp, steps := WriteTemp(data, sync);
      assert Same(Target(n), old(files), files);
      if ok {
        ok := Rename(temp, Target(n));
        steps := steps + [Disk(files)];
      }
    }

    /** Removes a temporary file if one was created, ignoring failure. */
    method Tidy(temp: Path, created: bool) returns (ghost steps: seq<Event>)
      requires Valid() && temp.Temp?
      modifies this
      ensures Valid() && clock == old(clock) + if created then 1 else 0
      ensures TempsOnly(old(files), files)
      ensures history == old(history) + steps
      ensures forall e :: e in steps ==> e == Disk(files)
    {
      steps := [];
      if created {
        var _ := Remove(temp);
        steps := [Disk(files)];
      }
    }

    /** PutInPlace followed by the removal of its temporary file. */
    method PutInPlaceTidily(n: Name, data: Bytes) returns (ok: bool, ghost steps: seq<Event>)
      requires Valid() && Target(n) !in files
      modifies this
      ensures Valid() && ok == Places(faults, old(clock), true)
      ensures clock == TidyEnd(faults, old(clock), true)
      ensures Elsewhere(n, old(files), files)
      ensures if ok then Holds(files, Target(n), data) else Target(n) !in files
      ensures history == old(history) + steps
      ensures forall e :: e in steps ==> e.Disk? && Elsewhere(n, old(files), e.files)
    {
      var created, temp;
      ok, created, temp, steps := PutInPlace(n, data, true);
      ghost var placed := files;
      ghost var more := Tidy(temp, created);
      ElsewhereThenTemps(n, old(files), placed, files);
      Appended(old(history), steps, more);
      steps := steps + more;
    }

    /** Puts one name back, ignoring failures. */
    method Restore(n: Name, ghost before: Files) returns (ghost steps: seq<Event>)
      requires Valid() && Target(n) in before && Holds(files, Backup(n), before[Target(n)])
      modifies this
      ensures Valid() && clock == old(clock) + 2
      ensures OnlyName(n, old(files), files)
      ensures PutBack(before, old(files), files, n, !faults(old(clock) + 1))
      ensures history == old(history) + steps
      ensures forall e :: e in steps ==>
                && e.Disk?
                && OnlyName(n, old(files), e.files)
                && (Holds(e.files, Target(n), before[Target(n)]) || Holds(e.files, Backup(n), before[Target(n)]))
    {
      var _ := Remove(Target(n));
      steps := [Disk(files)];
      var _ := Rename(Backup(n), Target(n));
      steps := steps + [Disk(files)];
    }

    method RestartAll(services: seq<string>) returns (ghost steps: seq<Event>)
      modifies this`clock, this`history
      ensures clock == old(clock) + |services| && history == old(history) + steps
      ensures AllRestarted(steps, services, files)
    {
      steps := [];
      for i := 0 to |services|
        invariant clock == old(clock) + i && |steps| == i
        invariant history == old(history) + steps
        invariant forall k :: 0 <= k < i ==>
                    steps[k].Restart? && steps[k].service == services[k] && steps[k].files == files
      {
        var ok := RestartService(services[i]);
        steps := steps + [Restart(files, services[i], ok)];
      }
    }

    /** Restores the given names in order, then restarts the services. */
    method Rollback(names: seq<Name>, services: seq<string>, ghost before: Files) returns (ghost steps: seq<Event>)
      requires Valid() && names <= NAMES
      requires forall n :: n in names ==> Target(n) in before && Holds(files, Backup(n), before[Target(n)])
      requires Safe(before, files) && Framed(before, files)
      modifies this
      ensures Valid() && clock == old(clock) + 2 * |names| + |services|
      ensures PutBackUpTo(before, old(files), files, names, |names|, faults, old(clock))
      ensures Safe(before, files) && Framed(before, files)
      ensures history == old(history) + steps && EndsWithRestarts(steps, services, files)
      ensures forall e :: e in steps ==> Safe(before, e.files) && Framed(before, e.files)
      ensures forall e :: e in steps && e.Restart? ==> e.files == files
    {
      steps := [];
      for i := 0 to |names|
        invariant Valid() && clock == old(clock) + 2 * i
        invariant Safe(before, files) && Framed(before, files)
        invariant PutBackUpTo(before, old(files), files, names, i, faults, old(clock))
        invariant history == old(history) + steps
        invariant forall e :: e in steps ==>
                    e.Disk? && Safe(before, e.files) && Framed(before, e.files)
      {
        var n := names[i];
        ghost var was := files;
        RestIsUntouched(before, old(files), files, names, i, faults, old(clock));
        ghost var more := Restore(n, before);
        Appended(old(history), steps, more);
        steps := steps + more;
        NameStepIsSafe(before, n, was, files);
        forall e | e in more
          ensures Safe(before, e.files) && Framed(before, e.files)
        {
          NameStepIsSafe(before, n, was, e.files);
        }
        PutBackMore(before, old(files), was, files, names, i, faults, old(clock));
      }
      ghost var more := RestartAll(services);
      assert more[0..] == more;
      EndsLater(steps, more, services, files);
      Appended(old(history), steps, more);
      steps := steps + more;
    }

    /** Replaces one binary: an older backup is deleted, the target is moved to the
        backup, and the new file is put in its place. */
    method ReplaceOne(n: Name, data: Bytes, ghost before: Files)
      returns (ok: bool, moved: bool, ghost steps: seq<Event>)
      requires Valid() && Safe(before, files) && Framed(before, files)
      requires Same(Target(n), before, files) && Same(Backup(n), before, files)
      modifies this
      ensures Valid() && OnlyName(n, old(files), files) && Safe(before, files) && Framed(before, files)
      ensures moved <==> Target(n) in before && !faults(old(clock) + 1)
      ensures ok <==> moved && Places(faults, old(clock) + 2, true)
      ensures clock == if moved then TidyEnd(faults, old(clock) + 2, true) else old(clock) + 2
      ensures if moved then
                && Holds(files, Backup(n), before[Target(n)])
                && (if ok then Holds(files, Target(n), data) else Target(n) !in files)
              else
                && Same(Target(n), before, files)
                && (if faults(old(clock)) then Same(Backup(n), before, files) else Backup(n) !in files)
      ensures history == old(history) + steps
      ensures forall e :: e in steps ==> e.Disk? && Safe(before, e.files) && Framed(before, e.files)
    {
      ghost var was := files;
      ok, moved := false, false;
      var _ := Remove(Backup(n));
      NameStepIsSafe(before, n, was, files);
      steps := [Disk(files)];
      moved := Rename(Target(n), Backup(n));
      NameStepIsSafe(before, n, was, files);
      steps := steps + [Disk(files)];
      if !moved {
        return;
      }
      ghost var aside := files;
      ghost var more: seq<Event>;
      ok, more := PutInPlaceTidily(n, data);
      ElsewhereStepIsSafe(before, n, was, aside, files);
      forall e | e in more
        ensures Safe(before, e.files) && Framed(before, e.files)
      {
        ElsewhereStepIsSafe(before, n, was, aside, e.files);
      }
      Appended(old(history), steps, more);
      steps := steps + more;
    }

    method RestartEach(services: seq<string>) returns (ok: bool, ghost steps: seq<Event>)
      modifies this`clock, this`history
      ensures AreRestarts(files, services, steps, ok)
      ensures StoppedAt(faults, old(clock), |steps|, ok)
      ensures clock == old(clock) + |steps| && history == old(history) + steps
    {
      steps := [];
      for i := 0 to |services|
        invariant clock == old(clock) + i && |steps| == i && Quiet(faults, old(clock), clock)
        invariant history == old(history) + steps
        invariant forall k :: 0 <= k < i ==> steps[k] == Restart(files, services[k], true)
      {
        ok := RestartService(services[i]);
        steps := steps + [Restart(files, services[i], ok)];
        if !ok {
          return;
        }
      }
      ok := true;
    }

    method AskEach(services: seq<string>) returns (ok: bool, ghost steps: seq<Event>)
      modifies this`clock, this`history
      ensures AreQuestions(files, services, steps, ok)
      ensures StoppedAt(faults, old(clock), |steps|, ok)
      ensures clock == old(clock) + |steps| && history == old(history) + steps
    {
      steps := [];
      for i := 0 to |services|
        invariant clock == old(clock) + i && |steps| == i && Quiet(faults, old(clock), clock)
        invariant history == old(history) + steps
        invariant forall k :: 0 <= k < i ==> steps[k] == IsActive(files, services[k], true)
      {
        ok := CheckService(services[i]);
        steps := steps + [IsActive(files, services[i], ok)];
        if !ok {
          return;
        }
      }
      ok := true;
    }

    /** Restarts every service, then asks each whether it is active, then runs the
        doctor; stops at the first failure. */
    method CheckAll(services: seq<string>) returns (ok: bool, ghost steps: seq<Event>)
      modifies this`clock, this`history
      ensures
        var end := old(clock) + Commands(|services|);
        && (ok <==> FirstFault(faults, old(clock), end) == end)
        && clock == FirstFault(faults, old(clock), end) + (if ok then 0 else 1)
        && clock == old(clock) + |steps|
      ensures Ran(files, services, steps, ok)
      ensures history == old(history) + steps
      ensures forall e :: e in steps ==> e.files == files
    {
      ghost var at, questions, doctor: seq<Event> := clock, [], [];
      var active := false;
      var restarted, restarts := RestartEach(services);
      ok, steps := false, restarts;
      if restarted {
        active, questions := AskEach(services);
        Appended(old(history), steps, questions);
        steps := steps + questions;
      }
      if active {
        ok := RunDoctor();
        doctor := [Doctor(files, ok)];
        Appended(old(history), steps, doctor);
        steps := steps + doctor;
      }
      assert steps == restarts + questions + doctor;
      ChecksEnd(faults, at, files, services, restarts, restarted, questions, active, doctor, ok);
    }

    /** Deletes the backups, in no particular order and ignoring failures. */
    method DiscardBackups() returns (ghost steps: seq<Event>)
      requires Valid()
      modifies this
      ensures Valid() && clock == old(clock) + |NAMES|
      ensures Quiet(faults, old(clock), clock) ==> forall n :: Backup(n) !in files
      ensures forall p: Path :: !p.Backup? ==> Same(p, old(files), files)
      ensures history == old(history) + steps
      ensures forall e :: e in steps ==>
                e.Disk? && forall p: Path :: !p.Backup? ==> Same(p, old(files), e.files)
    {
      steps := [];
      var left := {Cli, Agent, Web};
      forall n: Name
        ensures n in left
      {
        match n
        case Cli =>
        case Agent =>
        case Web =>
      }
      while left != {}
        invariant Valid()
        invariant clock + |left| == old(clock) + |NAMES|
        invariant Quiet(faults, old(clock), clock) ==> forall n :: n !in left ==> Backup(n) !in files
        invariant forall p: Path :: !p.Backup? ==> Same(p, old(files), files)
        invariant history == old(history) + steps
        invariant forall e :: e in steps ==>
                    e.Disk? && forall p: Path :: !p.Backup? ==> Same(p, old(files), e.files)
        decreases |left|
      {
        var n :| n in left;
        left := left - {n};
        var _ := Remove(Backup(n));
        steps := steps + [Disk(files)];
      }
    }

    /** The way out when replacing `n` failed after `installed` were replaced, in an
        update that began at operation `at`. */
    method GiveUp(n: Name, moved: bool, installed: seq<Name>, services: seq<string>, restoreCurrent: bool,
                  ghost at: nat, ghost before: Files, ghost release: map<Name, Bytes>)
      returns (outcome: Outcome, ghost steps: seq<Event>)
      requires Valid() && forall m :: m in release
      requires installed == NAMES[..Index(n)]
      requires clock == RollbackAt(faults, at, |services|, Failure(n, moved))
      requires forall m :: m != n ==> Reached(before, release, files, m, installed)
      requires if moved then
                 Target(n) in before && Holds(files, Backup(n), before[Target(n)]) && Target(n) !in files
               else
                 Same(Target(n), before, files)
                 && if faults(at + SPENT * Index(n)) then Same(Backup(n), before, files) else Backup(n) !in files
      requires Safe(before, files) && Framed(before, files)
      modifies this
      ensures Valid() && outcome == Failure(n, moved)
      ensures clock >= RollbackAt(faults, at, |services|, outcome)
      ensures forall m :: LeftBehind(faults, at, before, release, |services|, files, outcome, restoreCurrent, m)
      ensures Safe(before, files) && Framed(before, files)
      ensures history == old(history) + steps && EndsWithRestarts(steps, services, files)
      ensures forall e :: e in steps ==> Safe(before, e.files) && Framed(before, e.files)
      ensures forall e :: e in steps && e.Restart? ==> e.files == files
    {
      outcome := Failure(n, moved);
      var names := if moved && restoreCurrent then installed + [n] else installed;
      ghost var failed := files;
      WalkedNames(n, moved, restoreCurrent);
      forall m | m in names
        ensures Target(m) in before && Holds(files, Backup(m), before[Target(m)])
      {
        assert m != n ==> Reached(before, release, files, m, installed);
      }
      steps := Rollback(names, services, before);
      assert names[..|names|] == names;
      forall m
        ensures LeftBehind(faults, at, before, release, |services|, files, outcome, restoreCurrent, m)
      {
        assert m != n ==> Reached(before, release, failed, m, installed);
        GivenUp(faults, at, before, release, |services|, failed, files, n, moved, restoreCurrent, m);
      }
    }

    /** One turn of the loop: replaces `n` after `installed`. */
    method ReplaceNext(n: Name, installed: seq<Name>, release: map<Name, Bytes>, ghost before: Files)
      returns (ok: bool, moved: bool, ghost steps: seq<Event>)
      requires Valid() && Safe(before, files) && Framed(before, files)
      requires n !in installed && forall m :: m in release
      requires forall m :: Reached(before, release, files, m, installed)
      modifies this
      ensures Valid() && Safe(before, files) && Framed(before, files)
      ensures moved <==> Target(n) in before && !faults(old(clock) + 1)
      ensures ok <==> moved && Places(faults, old(clock) + 2, true)
      ensures clock == if moved then TidyEnd(faults, old(clock) + 2, true) else old(clock) + 2
      ensures forall m :: m != n ==> Reached(before, release, files, m, installed)
      ensures ok ==> forall m :: Reached(before, release, files, m, installed + [n])
      ensures moved && !ok ==> Holds(files, Backup(n), before[Target(n)]) && Target(n) !in files
      ensures !moved ==>
                && Same(Target(n), before, files)
                && (if faults(old(clock)) then Same(Backup(n), before, files) else Backup(n) !in files)
      ensures history == old(history) + steps
      ensures forall e :: e in steps ==> e.Disk? && Safe(before, e.files) && Framed(before, e.files)
    {
      ghost var was := files;
      assert Reached(before, release, files, n, installed);
      ok, moved, steps := ReplaceOne(n, release[n], before);
      OtherNamesKeep(before, release, was, files, n, installed);
    }

    /** Replaces the names in order, as far as that goes. */
    method ReplaceEach(release: map<Name, Bytes>) returns (installed: seq<Name>, moved: bool, ghost steps: seq<Event>)
      requires Valid() && forall n :: n in release
      modifies this
      ensures Valid() && Safe(old(files), files) && Framed(old(files), files)
      ensures installed <= NAMES && Passed(faults, old(clock), old(files), |installed|)
      ensures installed == NAMES ==>
                && clock == old(clock) + SPENT * |NAMES|
                && forall m :: Reached(old(files), release, files, m, installed)
      ensures installed < NAMES ==>
                var i, n := |installed|, NAMES[|installed|];
                && (moved <==> Target(n) in old(files) && !faults(old(clock) + SPENT * i + 1))
                && (moved ==> !Places(faults, old(clock) + SPENT * i + 2, true))
                && clock == (if moved then TidyEnd(faults, old(clock) + SPENT * i + 2, true) else old(clock) + SPENT * i + 2)
                && (forall m :: m != n ==> Reached(old(files), release, files, m, installed))
                && if moved then Holds(files, Backup(n), old(files)[Target(n)]) && Target(n) !in files
                   else Same(Target(n), old(files), files)
                        && if faults(old(clock) + SPENT * i) then Same(Backup(n), old(files), files) else Backup(n) !in files
      ensures history == old(history) + steps
      ensures forall e :: e in steps ==> e.Disk? && Safe(old(files), e.files) && Framed(old(files), e.files)
    {
      ghost var before, at := files, clock;
      ghost var more: seq<Event>;
      installed, moved, steps := [], false, [];
      for i := 0 to |NAMES|
        invariant Valid() && installed == NAMES[..i]
        invariant clock == at + SPENT * i && Passed(faults, at, before, i)
        invariant forall n :: Reached(before, release, files, n, installed)
        invariant Safe(before, files) && Framed(before, files)
        invariant history == old(history) + steps
        invariant forall e :: e in steps ==>
                    e.Disk? && Safe(before, e.files) && Framed(before, e.files)
      {
        var ok;
        EveryNameIsListed();
        DistinctSplit(NAMES, i);
        ok, moved, more := ReplaceNext(NAMES[i], installed, release, before);
        Appended(old(history), steps, more);
        steps := steps + more;
        if !ok {
          return;
        }
        installed := installed + [NAMES[i]];
        PassedNext(faults, at, before, i);
      }
    }

    /** Replaces all names; on a failure rolls back the names installed so far, and also
        the one in progress if `restoreCurrent`. */
    method ReplaceAll(release: map<Name, Bytes>, services: seq<string>, restoreCurrent: bool)
      returns (outcome: Outcome, ghost steps: seq<Event>)
      requires Valid() && forall n :: n in release
      modifies this
      ensures Valid() && (outcome.Installed? || outcome.BackupFailed? || outcome.ReplaceFailed?)
      ensures outcome.Installed? ==>
                && Passed(faults, old(clock), old(files), |NAMES|)
                && clock == old(clock) + SPENT * |NAMES|
                && forall n :: Reached(old(files), release, files, n, NAMES)
      ensures !outcome.Installed? ==>
                && Comes(faults, old(clock), old(files), |services|, outcome)
                && clock >= RollbackAt(faults, old(clock), |services|, outcome)
                && EndsWithRestarts(steps, services, files)
                && forall n :: LeftBehind(faults, old(clock), old(files), release, |services|, files, outcome, restoreCurrent, n)
      ensures Safe(old(files), files) && Framed(old(files), files)
      ensures history == old(history) + steps
      ensures forall e :: e in steps ==> Safe(old(files), e.files) && Framed(old(files), e.files)
      ensures forall e :: e in steps && e.Restart? ==> !outcome.Installed? && e.files == files
    {
      ghost var before, at := files, clock;
      var installed, moved;
      installed, moved, steps := ReplaceEach(release);
      outcome := Installed;
      if |installed| < |NAMES| {
        ghost var more: seq<Event>;
        FailureComes(faults, at, before, |services|, |installed|, moved);
        outcome, more := GiveUp(NAMES[|installed|], moved, installed, services, restoreCurrent, at, before, release);
        Appended(old(history), steps, more);
        EndsLater(steps, more, services, files);
        steps := steps + more;
      }
    }

    /** The archive must hold every binary, and none may be empty. */
    method CheckRelease(release: map<Name, Bytes>) returns (ok: bool)
      ensures ok <==> Complete(release)
    {
      EveryNameIsListed();
      for i := 0 to |NAMES|
        invariant forall j :: 0 <= j < i ==> NAMES[j] in release && release[NAMES[j]] != []
      {
        if NAMES[i] !in release || release[NAMES[i]] == [] {
          return false;
        }
      }
      ok := true;
      forall n
        ensures n in release && release[n] != []
      {
        assert n in NAMES;
        var j :| 0 <= j < |NAMES| && NAMES[j] == n;
      }
    }

    /** Rolls back all three after a failed check. */
    method Withdraw(release: map<Name, Bytes>, services: seq<string>, ghost at: nat, ghost before: Files)
      returns (ghost steps: seq<Event>)
      requires Valid() && clock == RollbackAt(faults, at, |services|, CheckFailed) && forall n :: n in release
      requires forall n :: Reached(before, release, files, n, NAMES)
      requires Safe(before, files) && Framed(before, files)
      modifies this
      ensures Valid() && Safe(before, files) && Framed(before, files) && clock >= old(clock)
      ensures forall n :: LeftBehind(faults, at, before, release, |services|, files, CheckFailed, false, n)
                       && LeftBehind(faults, at, before, release, |services|, files, CheckFailed, true, n)
      ensures history == old(history) + steps && EndsWithRestarts(steps, services, files)
      ensures forall e :: e in steps ==> Safe(before, e.files) && Framed(before, e.files)
      ensures forall e :: e in steps && e.Restart? ==> e.files == files
    {
      ghost var tested := files;
      EveryNameIsListed();
      ReachedMeansNew(before, release, files);
      ReachedMeansBackedUp(before, release, files);
      steps := Rollback(NAMES, services, before);
      assert NAMES[..|NAMES|] == NAMES;
      forall n
        ensures LeftBehind(faults, at, before, release, |services|, files, CheckFailed, false, n)
        ensures LeftBehind(faults, at, before, release, |services|, files, CheckFailed, true, n)
      {
        assert Holds(tested, Target(n), release[n]);
        assert PutBack(before, tested, files, n, RenamesBack(faults, old(clock), Index(n)));
      }
    }

    /** With the three new binaries in place, in an update that began at operation `at`:
        checks them, and either discards the backups or rolls everything back. */
    method Confirm(release: map<Name, Bytes>, services: seq<string>, ghost at: nat, ghost before: Files)
      returns (outcome: Outcome, ghost steps: seq<Event>, ghost checked: nat)
      requires Valid() && Complete(release) && clock == at + SPENT * |NAMES| && Passed(faults, at, before, |NAMES|)
      requires forall n :: Reached(before, release, files, n, NAMES)
      requires Safe(before, files) && Framed(before, files)
      modifies this
      ensures Valid() && (outcome == Installed || outcome == CheckFailed)
      ensures Comes(faults, at, before, |services|, outcome)
      ensures history == old(history) + steps
      ensures Framed(before, files) && NeverLost(before, steps, checked)
      ensures outcome.Installed? ==>
                && CheckedOn(release, services, steps, checked, files)
                && clock == old(clock) + Commands(|services|) + |NAMES|
                && (Quiet(faults, old(clock) + Commands(|services|), clock) ==> forall n :: Backup(n) !in files)
      ensures !outcome.Installed? ==>
                && Safe(before, files) && checked == |steps| && EndsWithRestarts(steps, services, files)
                && clock >= RollbackAt(faults, at, |services|, outcome)
                && forall n :: LeftBehind(faults, at, before, release, |services|, files, outcome, false, n)
                            && LeftBehind(faults, at, before, release, |services|, files, outcome, true, n)
      ensures forall e :: e in steps && e.Restart? ==>
                AllNew(release, e.files) || (!outcome.Installed? && e.files == files)
    {
      ReachedMeansNew(before, release, files);
      ghost var tested := files;
      ghost var more: seq<Event>;
      var ok;
      ok, steps := CheckAll(services);
      checked := |steps|;
      if !ok {
        outcome := CheckFailed;
        more := Withdraw(release, services, at, before);
        WithdrawnSteps(before, tested, steps, more);
        EndsLater(steps, more, services, files);
        Appended(old(history), steps, more);
        steps := steps + more;
        checked := |steps|;
        return;
      }
      outcome := Installed;
      more := Settle(release, before);
      ConfirmedSteps(before, release, services, tested, steps, more, files);
      Appended(old(history), steps, more);
      steps := steps + more;
    }

    /** Discards the backups of three new binaries. */
    method Settle(release: map<Name, Bytes>, ghost before: Files) returns (ghost steps: seq<Event>)
      requires Valid() && (forall n :: n in release) && AllNew(release, files) && Framed(before, files)
      modifies this
      ensures Valid() && AllNew(release, files) && Framed(before, files)
      ensures clock == old(clock) + |NAMES| && (Quiet(faults, old(clock), clock) ==> forall n :: Backup(n) !in files)
      ensures history == old(history) + steps
      ensures forall e :: e in steps ==> e.Disk? && AllNew(release, e.files) && Framed(before, e.files)
    {
      ghost var tested := files;
      steps := DiscardBackups();
      forall e | e in steps
        ensures AllNew(release, e.files) && Framed(before, e.files)
      {
        StillNew(release, before, tested, e.files);
      }
      StillNew(release, before, tested, files);
    }

    /** Replaces all three binaries, restarts and checks, and rolls back on failure.

        `restoreCurrent` false is the source; true is the variant whose rollback also
        restores the name in progress. `steps` is what this update added to the
        history, of which the first `checked` come before or are the checks. */
    method InstallAll(release: map<Name, Bytes>, services: seq<string>, restoreCurrent: bool)
      returns (outcome: Outcome, ghost steps: seq<Event>, ghost checked: nat)
      requires Valid()
      modifies this
      ensures Valid() && history == old(history) + steps
      // a release with a missing or empty binary changes nothing
      ensures !Complete(release) ==> outcome == Rejected && steps == [] && files == old(files) && clock == old(clock)
      // otherwise the operations that fail and the targets on entry decide the outcome
      ensures Complete(release) ==> forall o ::
                Comes(faults, old(clock), old(files), |services|, o) <==> o == outcome
      // until the last check has passed no old binary is lost, and nothing but
      // targets, backups and temporary files ever changes
      ensures NeverLost(old(files), steps, checked) && Framed(old(files), files)
      ensures !outcome.Installed? ==> Safe(old(files), files) && checked == |steps|
      // success: all three are new, and every check ran after the last replacement
      ensures outcome.Installed? ==> CheckedOn(release, services, steps, checked, files)
      // and no backup remains unless removing one failed
      ensures outcome.Installed? && Quiet(faults, old(clock) + SPENT * |NAMES| + Commands(|services|), clock) ==> forall n :: Backup(n) !in files
      // failure: what each name is left with
      ensures Complete(release) && !outcome.Installed? ==>
                && clock >= RollbackAt(faults, old(clock), |services|, outcome)
                && forall n :: LeftBehind(faults, old(clock), old(files), release, |services|, files, outcome, restoreCurrent, n)
      // and the last thing done is to restart every service, in order, on what is left
      ensures Complete(release) && !outcome.Installed? ==>
                EndsWithRestarts(steps, services, files)
      // no service is ever restarted on a mixture of versions
      ensures Complete(release)
              && RollbackWorks(faults, RollbackAt(faults, old(clock), |services|, outcome), Walked(outcome, restoreCurrent))
              ==> Unmixed(old(files), release, steps)
    {
      ghost var before, at := files, clock;
      var ok := CheckRelease(release);
      if !ok {
        return Rejected, [], 0;
      }
      outcome, steps := ReplaceAll(release, services, restoreCurrent);
      checked := |steps|;
      if !outcome.Installed? {
        OutcomeIsDetermined(faults, at, before, |services|, outcome);
        UnmixedAfterRollback(faults, at, before, release, services, steps, files, outcome, restoreCurrent);
        return;
      }
      ghost var first := steps;
      outcome, steps, checked := Confirm(release, services, at, before);
      OutcomeIsDetermined(faults, at, before, |services|, outcome);
      steps, checked := ConfirmedLater(faults, at, before, release, services, old(history), first, steps, checked, files,
                                       outcome, restoreCurrent);
    }

    /** From operation number `clock` on exactly one fails by itself, the one at `clock + d`. */
    ghost predicate FailsOnlyAt(d: nat)
      reads this
    {
      faults(clock + d) && forall k: nat :: clock <= k && k != clock + d ==> !faults(k)
    }

    /** With all targets present, an update during which one operation fails, and that in
        the middle of replacing a binary, leaves that binary's only copy in its backup,
        and every other binary as it was. */
    method OneFaultLosesABinary(release: map<Name, Bytes>, services: seq<string>, n: Name, d: nat)
      requires Valid() && Complete(release) && forall m :: Target(m) in files
      requires SPENT * Index(n) + 2 <= d < SPENT * Index(n) + 8 && FailsOnlyAt(d)
      modifies this
      ensures Valid() && clock > old(clock) + d
      ensures Target(n) !in files && Holds(files, Backup(n), old(files)[Target(n)])
      ensures forall m :: m != n ==> Same(Target(m), old(files), files)
    {
      ghost var before, at := files, clock;
      var outcome;
      ghost var steps, checked;
      outcome, steps, checked := InstallAll(release, services, false);
      BinaryIsLost(faults, at, before, release, |services|, files, outcome, n, d);
    }

    /** A second attempt after that deletes the only copy and fails, although none of its
        own operations does. */
    method RetryAfterFailure(release: map<Name, Bytes>, services: seq<string>, n: Name, d: nat)
      returns (second: Outcome)
      requires Valid() && Complete(release) && forall m :: Target(m) in files
      requires SPENT * Index(n) + 2 <= d < SPENT * Index(n) + 8 && FailsOnlyAt(d)
      modifies this
      ensures Valid() && second == BackupFailed(n)
      ensures Target(n) !in files && Backup(n) !in files
    {
      ghost var before, at := files, clock;
      var first;
      ghost var steps, checked;
      first, steps, checked := InstallAll(release, services, false);
      ghost var between, later := files, clock;
      BinaryIsLost(faults, at, before, release, |services|, between, first, n, d);
      second, steps, checked := InstallAll(release, services, false);
      OnlyCopyIsLost(faults, at, before, release, |services|, between, first, n, d, later, files, second);
    }

    /** An update of a host that an earlier one, stopped at some moment, may have left with
        a binary's only copy in its backup: whether that copy survives. */
    method UpdateAfterStop(release: map<Name, Bytes>, services: seq<string>, n: Name) returns (outcome: Outcome)
      requires Valid() && Complete(release) && !Gone(files, n)
      modifies this
      ensures Valid() && outcome == OutcomeOf(faults, old(clock), old(files), |services|)
      ensures Gone(files, n) <==>
                && Target(n) !in old(files)
                && Passed(faults, old(clock), old(files), Index(n))
                && !faults(old(clock) + SPENT * Index(n))
    {
      ghost var moment, at := files, clock;
      ghost var steps, checked;
      outcome, steps, checked := InstallAll(release, services, false);
      OutcomeIsComputed(faults, at, moment, |services|, outcome);
      NextUpdateLosesExactly(faults, at, moment, release, |services|, files, outcome, n);
    }

    /** Moves a backup back without removing what is at the target first. */
    method MoveBack(n: Name, ghost before: Files) returns (ghost steps: seq<Event>)
      requires Valid() && Safe(before, files) && Framed(before, files) && OnlyName(n, before, files)
      requires Target(n) in before && Target(n) !in files && Holds(files, Backup(n), before[Target(n)])
      modifies this
      ensures Valid() && clock == old(clock) + 1
      ensures Safe(before, files) && Framed(before, files) && OnlyName(n, before, files)
      ensures if faults(old(clock)) then files == old(files)
              else Same(Target(n), before, files) && Backup(n) !in files
      ensures history == old(history) + steps && steps == [Disk(files)]
    {
      var _ := Rename(Backup(n), Target(n));
      NameStepIsSafe(before, n, before, files);
      steps := [Disk(files)];
    }

    /** Moves the target to its backup and the new file in its place. */
    method Replace(n: Name, data: Bytes)
      returns (moved: bool, ok: bool, created: bool, temp: Path, ghost steps: seq<Event>)
      requires Valid()
      modifies this
      ensures Valid() && temp.Temp?
      ensures moved <==> Target(n) in old(files) && !faults(old(clock))
      ensures ok <==> moved && Places(faults, old(clock) + 1, false)
      ensures clock == if moved then PlaceEnd(faults, old(clock) + 1, false) else old(clock) + 1
      ensures Safe(old(files), files) && Framed(old(files), files) && OnlyName(n, old(files), files)
      ensures if !moved then files == old(files)
              else
                && Holds(files, Backup(n), old(files)[Target(n)])
                && (if ok then Holds(files, Target(n), data) else Target(n) !in files)
      ensures history == old(history) + steps
      ensures forall e :: e in steps ==> Safe(old(files), e.files) && Framed(old(files), e.files)
    {
      ghost var before := files;
      moved := Rename(Target(n), Backup(n));
      NameStepIsSafe(before, n, before, files);
      ok, created, temp, steps := false, false, Temp(0), [Disk(files)];
      if !moved {
        return;
      }
      ghost var aside := files;
      ghost var more: seq<Event>;
      ok, created, temp, more := PutInPlace(n, data, false);
      ElsewhereStepIsSafe(before, n, before, aside, files);
      forall e | e in more
        ensures Safe(before, e.files) && Framed(before, e.files)
      {
        ElsewhereStepIsSafe(before, n, before, aside, e.files);
      }
      steps := steps + more;
    }

    /** The older single-binary installer. Its backup is kept on success and moved back
        on every later failure, in place unless that move fails too. */
    method Install(n: Name, data: Bytes) returns (ok: bool, ghost steps: seq<Event>)
      requires Valid()
      modifies this
      ensures Valid() && history == old(history) + steps
      ensures NeverLost(old(files), steps, |steps|) && OnlyName(n, old(files), files)
      ensures
        var moved := Target(n) in old(files) && !faults(old(clock));
        && (ok <==> moved && Places(faults, old(clock) + 1, false))
        && if ok then
             Holds(files, Target(n), data) && Holds(files, Backup(n), old(files)[Target(n)])
           else if !moved then
             files == old(files)
           else if faults(PlaceEnd(faults, old(clock) + 1, false)) then
             Target(n) !in files && Holds(files, Backup(n), old(files)[Target(n)])
           else
             Same(Target(n), old(files), files) && Backup(n) !in files
    {
      ghost var before := files;
      var moved, created, temp;
      moved, ok, created, temp, steps := Replace(n, data);
      if moved {
        ghost var more: seq<Event>;
        if !ok {
          more := MoveBack(n, before);
          steps := steps + more;
        }
        ghost var settled := files;
        more := Tidy(temp, created);
        TempsStepIsSafe(before, n, settled, files);
        steps := steps + more;
      }
      assert steps[..|steps|] == steps;
    }
  }

  // ------------------------------------------------------------------
  // What the documentation promises, and when it holds
  // ------------------------------------------------------------------

  lemma PassedIsMonotone(faults: Faults, at: nat, before: Files, i: nat, j: nat)
    requires i < j <= |NAMES| && Passed(faults, at, before, j)
    ensures Passed(faults, at, before, i)
    ensures Target(NAMES[i]) in before && Quiet(faults, at + SPENT * i + 1, at + SPENT * i + 8)
  {
  }

  lemma SameOutcome(faults: Faults, at: nat, before: Files, services: nat, o: Outcome, outcome: Outcome)
    requires Comes(faults, at, before, services, o) && Comes(faults, at, before, services, outcome)
    ensures o == outcome
  {
    var i := if o.BackupFailed? || o.ReplaceFailed? then Index(o.at) else |NAMES|;
    var j := if outcome.BackupFailed? || outcome.ReplaceFailed? then Index(outcome.at) else |NAMES|;
    if i < j {
      PassedIsMonotone(faults, at, before, i, j);
    } else if j < i {
      PassedIsMonotone(faults, at, before, j, i);
    }
  }

  /** Exactly one outcome comes of given faults and targets. */
  lemma OutcomeIsDetermined(faults: Faults, at: nat, before: Files, services: nat, outcome: Outcome)
    requires Comes(faults, at, before, services, outcome)
    ensures forall o :: Comes(faults, at, before, services, o) <==> o == outcome
  {
    forall o | Comes(faults, at, before, services, o)
      ensures o == outcome
    {
      SameOutcome(faults, at, before, services, o, outcome);
    }
  }

  lemma {:induction false} ReplacedPasses(faults: Faults, at: nat, before: Files, i: nat)
    requires i <= |NAMES| && Passed(faults, at, before, i)
    ensures
      var k := Replaced(faults, at, before, i);
      && Passed(faults, at, before, k)
      && (k < |NAMES| ==>
            !(Target(NAMES[k]) in before && Quiet(faults, at + SPENT * k + 1, at + SPENT * k + 8)))
    decreases |NAMES| - i
  {
    if i < |NAMES| && Target(NAMES[i]) in before && Quiet(faults, at + SPENT * i + 1, at + SPENT * i + 8) {
      ReplacedPasses(faults, at, before, i + 1);
    }
  }

  lemma ComputedOutcomeComes(faults: Faults, at: nat, before: Files, services: nat)
    ensures Comes(faults, at, before, services, OutcomeOf(faults, at, before, services))
  {
    var i := Replaced(faults, at, before, 0);
    ReplacedPasses(faults, at, before, 0);
    if i < |NAMES| {
      var moved := Target(NAMES[i]) in before && !faults(at + SPENT * i + 1);
      FailureComes(faults, at, before, services, i, moved);
    }
  }

  /** Some outcome always comes, and it is the computed one. */
  lemma OutcomeIsComputed(faults: Faults, at: nat, before: Files, services: nat, outcome: Outcome)
    ensures Comes(faults, at, before, services, outcome) <==> outcome == OutcomeOf(faults, at, before, services)
  {
    ComputedOutcomeComes(faults, at, before, services);
    if Comes(faults, at, before, services, outcome) {
      SameOutcome(faults, at, before, services, outcome, OutcomeOf(faults, at, before, services));
    }
  }

  /** With all targets present, the one operation that fails decides the outcome by its
      position alone: 9 for each binary, then the commands. */
  lemma LoneFaultOutcome(faults: Faults, at: nat, before: Files, services: nat, d: nat)
    requires forall n :: Target(n) in before
    requires faults(at + d) && forall k: nat :: at <= k && k != at + d ==> !faults(k)
    ensures
      Comes(faults, at, before, services,
            if d < SPENT * |NAMES| then
              (if d % SPENT == 1 then BackupFailed(NAMES[d / SPENT])
               else if 2 <= d % SPENT < 8 then ReplaceFailed(NAMES[d / SPENT])
               else Installed)
            else if d < SPENT * |NAMES| + Commands(services) then CheckFailed
            else Installed)
  {
    EveryNameIsListed();
  }

  lemma MidwayFault(faults: Faults, at: nat, before: Files, services: nat, n: Name, d: nat)
    requires forall m :: Target(m) in before
    requires faults(at + d) && forall k: nat :: at <= k && k != at + d ==> !faults(k)
    requires SPENT * Index(n) + 2 <= d < SPENT * Index(n) + 8
    ensures Comes(faults, at, before, services, ReplaceFailed(n))
    ensures RollbackAt(faults, at, services, ReplaceFailed(n)) > at + d
    ensures RollbackWorks(faults, RollbackAt(faults, at, services, ReplaceFailed(n)), Index(n))
  {
    EveryNameIsListed();
  }

  /** An update during which one operation fails, and that while `n` is being replaced,
      leaves its only copy in its backup, and every other binary as it was. */
  lemma BinaryIsLost(faults: Faults, at: nat, before: Files, release: map<Name, Bytes>, services: nat,
                     now: Files, outcome: Outcome, n: Name, d: nat)
    requires forall m :: m in release && Target(m) in before
    requires faults(at + d) && forall k: nat :: at <= k && k != at + d ==> !faults(k)
    requires SPENT * Index(n) + 2 <= d < SPENT * Index(n) + 8
    requires Comes(faults, at, before, services, outcome)
    requires !outcome.Installed? ==>
               forall m :: LeftBehind(faults, at, before, release, services, now, outcome, false, m)
    ensures outcome == ReplaceFailed(n) && RollbackAt(faults, at, services, outcome) > at + d
    ensures Target(n) !in now && Holds(now, Backup(n), before[Target(n)])
    ensures forall m :: m != n ==> Same(Target(m), before, now)
  {
    MidwayFault(faults, at, before, services, n, d);
    SameOutcome(faults, at, before, services, outcome, ReplaceFailed(n));
    forall m
      ensures if m == n then Target(m) !in now && Holds(now, Backup(m), before[Target(m)])
              else Same(Target(m), before, now)
    {
      assert LeftBehind(faults, at, before, release, services, now, outcome, false, m);
    }
  }

  /** A second update after that fails although none of its own operations does, and
      deletes the only copy. */
  lemma OnlyCopyIsLost(faults: Faults, at: nat, before: Files, release: map<Name, Bytes>, services: nat,
                       between: Files, first: Outcome, n: Name, d: nat,
                       later: nat, now: Files, second: Outcome)
    requires forall m :: m in release && Target(m) in before
    requires faults(at + d) && forall k: nat :: at <= k && k != at + d ==> !faults(k)
    requires SPENT * Index(n) + 2 <= d < SPENT * Index(n) + 8
    requires Comes(faults, at, before, services, first)
    requires !first.Installed? ==>
               forall m :: LeftBehind(faults, at, before, release, services, between, first, false, m)
    requires later >= RollbackAt(faults, at, services, first) && Comes(faults, later, between, services, second)
    requires !second.Installed? ==>
               forall m :: LeftBehind(faults, later, between, release, services, now, second, false, m)
    ensures second == BackupFailed(n) && Target(n) !in now && Backup(n) !in now
  {
    BinaryIsLost(faults, at, before, release, services, between, first, n, d);
    EveryNameIsListed();
    SameOutcome(faults, later, between, services, second, BackupFailed(n));
    assert LeftBehind(faults, later, between, release, services, now, second, false, n);
  }

  /** With all targets present and at most one operation failing, no rename of the
      rollback fails: the failure that led to it was the one. */
  lemma OneFaultIsRolledBack(faults: Faults, at: nat, before: Files, services: nat, outcome: Outcome, restoreCurrent: bool)
    requires forall n :: Target(n) in before
    requires AtMostOne(faults, at) && Comes(faults, at, before, services, outcome)
    ensures RollbackWorks(faults, RollbackAt(faults, at, services, outcome), Walked(outcome, restoreCurrent))
  {
  }

  /** With a target missing the update fails without any operation failing, so the one that
      does can be a rename of the rollback. */
  lemma OneFaultCanHitTheRollback(faults: Faults, at: nat, before: Files, services: nat)
    requires Target(Cli) in before && Target(Agent) !in before
    requires forall k: nat :: at <= k ==> (faults(k) <==> k == at + 12)
    ensures Comes(faults, at, before, services, BackupFailed(Agent))
    ensures !RollbackWorks(faults, RollbackAt(faults, at, services, BackupFailed(Agent)), 1)
  {
    assert !RenamesBack(faults, at + 11, 0);
  }

  /** Some binary's replacement stops between creating its temporary file and putting
      it in place. */
  ghost predicate StopsInReplacement(faults: Faults, at: nat, before: Files) {
    exists i :: 0 <= i < |NAMES|
      && Passed(faults, at, before, i)
      && Target(NAMES[i]) in before && !faults(at + SPENT * i + 1)
      && !Places(faults, at + SPENT * i + 2, true)
  }

  lemma StopsExactly(faults: Faults, at: nat, before: Files, services: nat, outcome: Outcome)
    requires Comes(faults, at, before, services, outcome)
    ensures StopsInReplacement(faults, at, before) <==> outcome.ReplaceFailed?
  {
    EveryNameIsListed();
    if StopsInReplacement(faults, at, before) {
      var i :| 0 <= i < |NAMES|
               && Passed(faults, at, before, i)
               && Target(NAMES[i]) in before && !faults(at + SPENT * i + 1)
               && !Places(faults, at + SPENT * i + 2, true);
      SameOutcome(faults, at, before, services, ReplaceFailed(NAMES[i]), outcome);
    }
  }

  lemma RestoredExactly(faults: Faults, at: nat, before: Files, release: map<Name, Bytes>, services: nat,
                        now: Files, outcome: Outcome, restoreCurrent: bool, n: Name)
    requires n in release && (Target(n) in before ==> release[n] != before[Target(n)])
    requires LeftBehind(faults, at, before, release, services, now, outcome, restoreCurrent, n)
    ensures Restored(before, now, n) <==>
              && (Index(n) < Walked(outcome, restoreCurrent) ==>
                    RenamesBack(faults, RollbackAt(faults, at, services, outcome), Index(n)))
              && (outcome == ReplaceFailed(n) ==> restoreCurrent)
  {
  }

  /** Known before the update: no rename of its rollback, if there is one, fails; and unless
      the rollback also restores the name in progress, no replacement stops in the middle. */
  ghost predicate KeepsItsPromise(faults: Faults, at: nat, before: Files, services: nat, restoreCurrent: bool) {
    var outcome := OutcomeOf(faults, at, before, services);
    && RollbackWorks(faults, RollbackAt(faults, at, services, outcome), Walked(outcome, restoreCurrent))
    && (restoreCurrent || !StopsInReplacement(faults, at, before))
  }

  lemma AllRestoredExactly(faults: Faults, at: nat, before: Files, release: map<Name, Bytes>, services: nat,
                           now: Files, outcome: Outcome, restoreCurrent: bool)
    requires forall n :: n in release && (Target(n) in before ==> release[n] != before[Target(n)])
    requires forall n :: LeftBehind(faults, at, before, release, services, now, outcome, restoreCurrent, n)
    ensures (forall n :: Restored(before, now, n)) <==>
              && RollbackWorks(faults, RollbackAt(faults, at, services, outcome), Walked(outcome, restoreCurrent))
              && (restoreCurrent || !outcome.ReplaceFailed?)
  {
    EveryNameIsListed();
    forall n
      ensures Restored(before, now, n) <==>
                && (Index(n) < Walked(outcome, restoreCurrent) ==>
                      RenamesBack(faults, RollbackAt(faults, at, services, outcome), Index(n)))
                && (outcome == ReplaceFailed(n) ==> restoreCurrent)
    {
      RestoredExactly(faults, at, before, release, services, now, outcome, restoreCurrent, n);
    }
    var walked := Walked(outcome, restoreCurrent);
    if forall n :: Restored(before, now, n) {
      forall i: nat | i < walked
        ensures RenamesBack(faults, RollbackAt(faults, at, services, outcome), i)
      {
        assert Restored(before, now, NAMES[i]);
      }
    }
  }

  /** The documented contract, exactly. When an update that brings three different
      binaries fails, all previous binaries are back, with no backup left but older ones,
      if and only if the faults and the targets on entry let it keep its promise. */
  lemma DocumentedContract(faults: Faults, at: nat, before: Files, release: map<Name, Bytes>, services: nat,
                           now: Files, outcome: Outcome, restoreCurrent: bool)
    requires Comes(faults, at, before, services, outcome) && !outcome.Installed?
    requires forall n :: n in release && (Target(n) in before ==> release[n] != before[Target(n)])
    requires forall n :: LeftBehind(faults, at, before, release, services, now, outcome, restoreCurrent, n)
    ensures (forall n :: Restored(before, now, n)) <==> KeepsItsPromise(faults, at, before, services, restoreCurrent)
  {
    OutcomeIsComputed(faults, at, before, services, outcome);
    StopsExactly(faults, at, before, services, outcome);
    AllRestoredExactly(faults, at, before, release, services, now, outcome, restoreCurrent);
  }

  /** With all targets present and one operation failing, the contract holds whatever the
      release, unless that operation is one of the six that replace a binary after it was
      moved aside; the variant meets it always. */
  lemma ContractUnderOneFault(faults: Faults, at: nat, before: Files, release: map<Name, Bytes>, services: nat,
                              now: Files, outcome: Outcome, restoreCurrent: bool, d: nat)
    requires forall n :: n in release && Target(n) in before
    requires faults(at + d) && forall k: nat :: at <= k && k != at + d ==> !faults(k)
    requires Comes(faults, at, before, services, outcome) && !outcome.Installed?
    requires forall n :: LeftBehind(faults, at, before, release, services, now, outcome, restoreCurrent, n)
    ensures (forall n :: Restored(before, now, n)) <==>
              restoreCurrent || !(d < SPENT * |NAMES| && 2 <= d % SPENT < 8)
  {
    LoneFaultOutcome(faults, at, before, services, d);
    OutcomeIsDetermined(faults, at, before, services, outcome);
    OneFaultIsRolledBack(faults, at, before, services, outcome, restoreCurrent);
    EveryNameIsListed();
    forall n
      ensures Restored(before, now, n) <==> restoreCurrent || outcome != ReplaceFailed(n)
    {
      assert LeftBehind(faults, at, before, release, services, now, outcome, restoreCurrent, n);
    }
  }

  // ------------------------------------------------------------------
  // Updating again after a stop
  // ------------------------------------------------------------------

  /** No copy of a binary is left, neither in place nor in its backup. */
  ghost predicate Gone(now: Files, n: Name) {
    Target(n) !in now && Backup(n) !in now
  }

  /** An update that is stopped leaves the host at a recorded moment; at each of them every
      binary that existed on entry has a copy. */
  lemma EveryMomentHasACopy(before: Files, release: map<Name, Bytes>, services: seq<string>, steps: seq<Event>,
                            checked: nat, now: Files, installed: bool, e: Event, n: Name)
    requires NeverLost(before, steps, checked) && e in steps && Target(n) in before
    requires if installed then CheckedOn(release, services, steps, checked, now) else checked == |steps|
    ensures !Gone(e.files, n)
  {
    var i :| 0 <= i < |steps| && steps[i] == e;
    if i < checked {
      assert steps[..checked][i] == e;
      assert Safe(before, e.files);
    } else {
      var start := checked - Commands(|services|);
      assert steps[start..][i - start] == e;
      assert AllNew(release, e.files);
    }
  }

  /** A next update, from a moment at which a binary has a copy, leaves none exactly when
      that copy is only in the backup, the update gets as far as that binary, and its
      first operation, removing an older backup, does not fail. */
  lemma NextUpdateLosesExactly(faults: Faults, at: nat, moment: Files, release: map<Name, Bytes>, services: nat,
                               now: Files, outcome: Outcome, n: Name)
    requires Comes(faults, at, moment, services, outcome) && forall m :: m in release
    requires if outcome.Installed? then AllNew(release, now)
             else LeftBehind(faults, at, moment, release, services, now, outcome, false, n)
    requires !Gone(moment, n)
    ensures Gone(now, n) <==>
              && Target(n) !in moment
              && Passed(faults, at, moment, Index(n))
              && !faults(at + SPENT * Index(n))
  {
    if outcome.Installed? {
      assert Holds(now, Target(n), release[n]);
      assert Target(NAMES[Index(n)]) in moment;
    } else if Target(n) !in moment && Passed(faults, at, moment, Index(n)) {
      SameOutcome(faults, at, moment, services, outcome, BackupFailed(n));
    }
  }
}
