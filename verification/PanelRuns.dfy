/**
  The panel end to end: pairing, revocation and challenge authentication interleaved
  with the sessions that successful verifications lead to.

  A session is issued for a success of the panel since it was last started, at most one
  for each, under a token that was never issued before. Times are readings of one clock.
  */
module PanelRuns {
  import opened Pairing
  import opened Registry
  import opened Authentication
  import opened PairingRuns
  import Sessions

  /** `owner` names the success each token was issued for, and `since` the first success
      after the panel's last start; `history` is the requests since then. */
  datatype Panel = Panel(world: World, history: seq<Sessions.Request>, owner: map<string, nat>, since: nat)

  datatype Event =
    | Identity(action: Action)
    | Issue(success: nat, token: string, at: int)
    | Logout(token: string)
    | Request(token: string, at: int)

  function Asked(p: Panel, r: Sessions.Request): Panel {
    p.(history := p.history + [r])
  }

  predicate MayIssue(p: Panel, success: nat, token: string, at: int) {
    && p.since <= success < |p.world.successes|
    && (forall t :: t in p.owner ==> p.owner[t] != success)
    && token != "" && token !in p.owner
    && p.world.successes[success].now <= at
  }

  function Happens(lib: Library, p: Panel, e: Event): Panel {
    match e
    case Identity(action) =>
      var world := Apply(lib, p.world, action);
      if action.RestartPanel? then p.(world := world, history := [], since := |world.successes|)
      else p.(world := world)
    case Issue(success, token, at) =>
      if MayIssue(p, success, token, at)
        then Asked(p, Sessions.Issue(token, at)).(owner := p.owner[token := success])
        else p
    case Logout(token) => Asked(p, Sessions.Logout(token))
    case Request(token, at) => Asked(p, Sessions.Protected(token, at))
  }

  function Play(lib: Library, start: Store, events: seq<Event>): Panel {
    if events == [] then Panel(Execute(lib, start, []), [], map[], 0)
    else Happens(lib, Play(lib, start, events[..|events| - 1]), events[|events| - 1])
  }

  /** The identity actions among the events. */
  function ActionsOf(events: seq<Event>): seq<Action> {
    if events == [] then []
    else
      var last := events[|events| - 1];
      ActionsOf(events[..|events| - 1]) + if last.Identity? then [last.action] else []
  }

  /** The panel's identity side is a run of its own. */
  lemma {:induction false} WorldIsRun(lib: Library, start: Store, events: seq<Event>)
    ensures Play(lib, start, events).world == Execute(lib, start, ActionsOf(events))
    decreases |events|
  {
    if events != [] {
      var front, last := events[..|events| - 1], events[|events| - 1];
      WorldIsRun(lib, start, front);
      if last.Identity? {
        OneMoreAction(lib, start, ActionsOf(front), last.action);
      } else {
        assert ActionsOf(events) == ActionsOf(front);
      }
    }
  }

  /** Every token belongs to a success, and no success has two; the requests issue each
      token once, no sooner than its success. */
  ghost predicate Owned(p: Panel) {
    && p.since <= |p.world.successes|
    && (forall t :: t in p.owner ==> p.owner[t] < |p.world.successes|)
    && (forall t, u :: t in p.owner && u in p.owner && t != u ==> p.owner[t] != p.owner[u])
    && Sessions.FreshTokens(p.history)
    && (forall r :: r in p.history && r.Issue? ==> IssueOwned(p, r))
  }

  ghost predicate IssueOwned(p: Panel, r: Sessions.Request)
    requires r.Issue?
  {
    && r.token in p.owner && p.since <= p.owner[r.token] < |p.world.successes|
    && p.world.successes[p.owner[r.token]].now <= r.at
  }

  lemma SuccessesGrow(lib: Library, w: World, action: Action)
    ensures w.successes <= Apply(lib, w, action).successes
  {
    match action
    case VerifyCheck(task, logged) =>
    case _ => assert Act(lib, w, action).successes == w.successes;
  }

  lemma HappensKeepsOwned(lib: Library, p: Panel, e: Event)
    requires Owned(p)
    ensures Owned(Happens(lib, p, e))
  {
    match e
    case Identity(action) =>
      SuccessesGrow(lib, p.world, action);
      ActingKeepsOwned(p, Apply(lib, p.world, action), action.RestartPanel?);
    case Issue(success, token, at) =>
      if MayIssue(p, success, token, at) {
        IssuingKeepsOwned(p, success, token, at);
      }
    case Logout(token) => AskingKeepsOwned(p, Sessions.Logout(token));
    case Request(token, at) => AskingKeepsOwned(p, Sessions.Protected(token, at));
  }

  lemma AskingKeepsOwned(p: Panel, r: Sessions.Request)
    requires Owned(p) && !r.Issue?
    ensures Owned(Asked(p, r))
  {
    forall q | q in Asked(p, r).history && q.Issue?
      ensures IssueOwned(Asked(p, r), q)
    {
      assert q in p.history && IssueOwned(p, q);
    }
  }

  lemma ActingKeepsOwned(p: Panel, world: World, restart: bool)
    requires Owned(p) && p.world.successes <= world.successes
    ensures Owned(if restart then p.(world := world, history := [], since := |world.successes|) else p.(world := world))
  {
    forall r | r in p.history && r.Issue?
      ensures IssueOwned(p.(world := world), r)
    {
      assert IssueOwned(p, r);
    }
  }

  lemma IssuingKeepsOwned(p: Panel, success: nat, token: string, at: int)
    requires Owned(p) && MayIssue(p, success, token, at)
    ensures Owned(Asked(p, Sessions.Issue(token, at)).(owner := p.owner[token := success]))
  {
    var after := Asked(p, Sessions.Issue(token, at)).(owner := p.owner[token := success]);
    forall i | 0 <= i < |p.history| && p.history[i].Issue?
      ensures p.history[i].token != token
    {
      assert p.history[i] in p.history && IssueOwned(p, p.history[i]);
    }
    forall r | r in after.history && r.Issue?
      ensures IssueOwned(after, r)
    {
      assert r in p.history ==> IssueOwned(p, r);
    }
  }

  lemma {:induction false} AlwaysOwned(lib: Library, start: Store, events: seq<Event>)
    ensures Owned(Play(lib, start, events))
    decreases |events|
  {
    if events != [] {
      AlwaysOwned(lib, start, events[..|events| - 1]);
      HappensKeepsOwned(lib, Play(lib, start, events[..|events| - 1]), events[|events| - 1]);
    } else {
      assert Execute(lib, start, []).successes == [];
    }
  }

  /** The token is for a success of its own, was issued after it and at most fifteen
      minutes ago, and has not been logged out since. */
  ghost predicate Held(p: Panel, token: string, at: int) {
    && token in p.owner && p.owner[token] < |p.world.successes|
    && (forall other :: other in p.owner && other != token ==> p.owner[other] != p.owner[token])
    && exists i :: && 0 <= i < |p.history| && p.history[i].Issue? && p.history[i].token == token
                   && p.world.successes[p.owner[token]].now <= p.history[i].at
                   && at <= p.history[i].at + Sessions.LIFETIME
                   && !Sessions.LoggedOutAfter(p.history, i, token)
  }

  /** Success `i` of a run of identity actions read its device when it was paired and
      active, and answered one of its challenges under the registered key. */
  ghost predicate Justified(lib: Library, start: Store, actions: seq<Action>, i: nat) {
    var w := Execute(lib, start, actions);
    && i < |w.successes|
    && var s := w.successes[i];
       && s.id in w.issued && s.readAt < |actions|
       && var issue, read := w.issued[s.id], Execute(lib, start, actions[..s.readAt]).store;
          && IsActive(read, issue.device) && issue.device in Named(read.audit, PairingSucceeded)
          && lib.verify(read.devices[issue.device].key, issue.value, s.signature)
          && s.now < issue.made + CHALLENGE_LIFETIME
  }

  lemma AdmissionIsHeld(p: Panel, token: string, at: int)
    requires Owned(p) && Sessions.MonotoneClock(p.history + [Sessions.Protected(token, at)])
    requires Sessions.Admits(Sessions.Replay(p.history), token, at)
    ensures Held(p, token, at)
  {
    Sessions.AdmittedExactlyWhenEntitled(p.history, token, at);
    var i :| 0 <= i < |p.history| && p.history[i].Issue? && p.history[i].token == token
             && at <= p.history[i].at + Sessions.LIFETIME && !Sessions.LoggedOutAfter(p.history, i, token);
    assert p.history[i] in p.history && IssueOwned(p, p.history[i]);
  }

  /** End to end: in every run, a request that the panel admits carries a token issued at
      most fifteen minutes ago, and not logged out since, for a verification of its own;
      and that verification read its device when it was paired and active, and answered
      one of its challenges under the registered key. */
  lemma EveryAdmissionIsEarned(lib: Library, start: Store, events: seq<Event>, token: string, at: int)
    requires Consistent(start)
    requires Sessions.MonotoneClock(Play(lib, start, events).history + [Sessions.Protected(token, at)])
    requires Sessions.Admits(Sessions.Replay(Play(lib, start, events).history), token, at)
    ensures
      var p := Play(lib, start, events);
      && Held(p, token, at)
      && p.world == Execute(lib, start, ActionsOf(events))
      && Justified(lib, start, ActionsOf(events), p.owner[token])
  {
    var p := Play(lib, start, events);
    AlwaysOwned(lib, start, events);
    AdmissionIsHeld(p, token, at);
    WorldIsRun(lib, start, events);
    SuccessIsJustified(lib, start, ActionsOf(events), p.owner[token]);
  }

  lemma SuccessIsJustified(lib: Library, start: Store, actions: seq<Action>, i: nat)
    requires Consistent(start) && i < |Execute(lib, start, actions).successes|
    ensures Justified(lib, start, actions, i)
  {
    EverySuccessIsJustified(lib, start, actions, i);
  }

  /** And a success earns its session: the token issued for it is admitted for exactly
      fifteen minutes. */
  lemma EarnedTokenIsAdmitted(lib: Library, p: Panel, success: nat, token: string, at: int, later: int)
    requires Owned(p) && MayIssue(p, success, token, at)
    ensures
      var after := Happens(lib, p, Event.Issue(success, token, at));
      && after.owner == p.owner[token := success] && after.world == p.world
      && (Sessions.Admits(Sessions.Replay(after.history), token, later) <==> later <= at + 15 * 60 * 1_000_000_000)
  {
    var r := Sessions.Issue(token, at);
    assert (p.history + [r])[..|p.history|] == p.history;
  }

  // ------------------------------------------------------------------
  // Sessions of a revoked device
  // ------------------------------------------------------------------

  lemma {:induction false} ActionsConcat(events: seq<Event>, more: seq<Event>)
    ensures ActionsOf(events + more) == ActionsOf(events) + ActionsOf(more)
    decreases |more|
  {
    if more == [] {
      assert events + more == events;
    } else {
      var front, last := more[..|more| - 1], more[|more| - 1];
      assert (events + more)[..|events + more| - 1] == events + front;
      ActionsConcat(events, front);
    }
  }

  /** What later events can do to the tokens issued by then: keep their owners, and issue
      none of them again. */
  ghost predicate KeepsTokens(p: Panel, after: Panel) {
    && (forall t :: t in p.owner ==> t in after.owner && after.owner[t] == p.owner[t])
    && p.world.successes <= after.world.successes
    && (forall r :: r in after.history && r.Issue? && r.token in p.owner ==> r in p.history)
  }

  lemma StepKeepsTokens(lib: Library, p: Panel, now: Panel, e: Event)
    requires KeepsTokens(p, now)
    ensures KeepsTokens(p, Happens(lib, now, e))
  {
    if e.Identity? {
      SuccessesGrow(lib, now.world, e.action);
    }
  }

  lemma OneMoreEvent(lib: Library, start: Store, events: seq<Event>, e: Event)
    ensures Play(lib, start, events + [e]) == Happens(lib, Play(lib, start, events), e)
  {
    assert (events + [e])[..|events|] == events;
  }

  lemma {:induction false} LaterKeepsTokens(lib: Library, start: Store, events: seq<Event>, more: seq<Event>)
    ensures KeepsTokens(Play(lib, start, events), Play(lib, start, events + more))
    decreases |more|
  {
    if more == [] {
      assert events + more == events;
    } else {
      var front, last := more[..|more| - 1], more[|more| - 1];
      LaterKeepsTokens(lib, start, events, front);
      OneMoreEvent(lib, start, events + front, last);
      assert events + front + [last] == events + more;
      StepKeepsTokens(lib, Play(lib, start, events), Play(lib, start, events + front), last);
    }
  }

  /** A success whose device is revoked after `k` actions read it before then. */
  lemma ReadBeforeRevocation(lib: Library, start: Store, actions: seq<Action>, k: nat, i: nat)
    requires Consistent(start) && k <= |actions| && Justified(lib, start, actions, i)
    requires
      var w := Execute(lib, start, actions);
      IsRevoked(Execute(lib, start, actions[..k]).store, w.issued[w.successes[i].id].device)
    ensures Execute(lib, start, actions).successes[i].readAt < k
  {
    var s := Execute(lib, start, actions).successes[i];
    if k <= s.readAt {
      assert actions[..s.readAt][..k] == actions[..k];
      LaterEvolves(lib, start, actions[..s.readAt], k);
    }
  }

  /** The panel's clock has not passed `time`. */
  ghost predicate IssuedBy(p: Panel, time: int) {
    forall r :: r in p.history && r.Issue? ==> r.at <= time
  }

  /** How long a session outlives its device. In any run that goes on after the device was
      revoked, a token still admitted is for a verification that had read the device before;
      it is admitted at most fifteen minutes after it was issued; and if it was issued
      before the revocation, at most fifteen minutes after that. */
  lemma RevokedDevicesLoseTheirSessions(lib: Library, start: Store, events: seq<Event>, more: seq<Event>,
                                        token: string, at: int, time: int)
    requires Consistent(start)
    requires Sessions.MonotoneClock(Play(lib, start, events + more).history + [Sessions.Protected(token, at)])
    requires Sessions.Admits(Sessions.Replay(Play(lib, start, events + more).history), token, at)
    requires IssuedBy(Play(lib, start, events), time)
    ensures
      var p, later := Play(lib, start, events), Play(lib, start, events + more);
      && Held(later, token, at)
      && var s := later.world.successes[later.owner[token]];
         s.id in later.world.issued
         && (IsRevoked(p.world.store, later.world.issued[s.id].device) ==>
               s.readAt < |ActionsOf(events)| && (token in p.owner ==> at <= time + Sessions.LIFETIME))
  {
    var p, later := Play(lib, start, events), Play(lib, start, events + more);
    EveryAdmissionIsEarned(lib, start, events + more, token, at);
    WorldIsRun(lib, start, events);
    ActionsConcat(events, more);
    LaterKeepsTokens(lib, start, events, more);
    var actions, k := ActionsOf(events + more), |ActionsOf(events)|;
    assert actions[..k] == ActionsOf(events);
    var s := later.world.successes[later.owner[token]];
    if IsRevoked(p.world.store, later.world.issued[s.id].device) {
      ReadBeforeRevocation(lib, start, actions, k, later.owner[token]);
      IssuedBeforeIsBounded(p, later, token, at, time);
    }
  }

  lemma IssuedBeforeIsBounded(p: Panel, later: Panel, token: string, at: int, time: int)
    requires Held(later, token, at) && KeepsTokens(p, later) && IssuedBy(p, time)
    ensures token in p.owner ==> at <= time + Sessions.LIFETIME
  {
    var i :| && 0 <= i < |later.history| && later.history[i].Issue? && later.history[i].token == token
             && at <= later.history[i].at + Sessions.LIFETIME;
    assert later.history[i] in later.history;
  }

  /** Revoking a device leaves its sessions alone: they end by their own expiry. */
  lemma RevocationKeepsSessions(lib: Library, start: Store, events: seq<Event>, action: Action, token: string, at: int)
    requires action.RevokeMark? || action.RevokeAudit?
    ensures Sessions.Admits(Sessions.Replay(Play(lib, start, events + [Identity(action)]).history), token, at)
            <==> Sessions.Admits(Sessions.Replay(Play(lib, start, events).history), token, at)
  {
    assert (events + [Identity(action)])[..|events|] == events;
  }
}
