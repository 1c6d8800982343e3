/**
  Panel sessions: issued after a successful challenge verification, dropped on
  logout, and expired lazily, when a request finds them out of date.

  Times are nanoseconds of the server's clock; tokens are random and so assumed
  never to repeat. Handlers run one at a time under the server's mutex, so a run is
  a sequence of requests.
  */
module Sessions {
  import opened Shared

  const LIFETIME: int := 15 * 60 * SECOND

  datatype Request =
    | Issue(token: string, at: int)
    | Logout(token: string)
    | Protected(token: string, at: int)

  type Table = map<string, int>

  /** Whether a protected request gets through, and it is the stored expiry that says so. */
  predicate Admits(sessions: Table, token: string, at: int) {
    token != "" && token in sessions && at <= sessions[token]
  }

  /** The session table after one request. */
  function After(sessions: Table, r: Request): Table {
    match r
    case Issue(token, at) => sessions[token := at + LIFETIME]
    case Logout(token) => sessions - {token}
    case Protected(token, at) =>
      if token in sessions && at > sessions[token] then sessions - {token} else sessions
  }

  function Replay(history: seq<Request>): Table {
    if history == [] then map[]
    else After(Replay(history[..|history| - 1]), history[|history| - 1])
  }

  class Server {
    var sessions: Table
    ghost var history: seq<Request>

    constructor ()
      ensures Valid() && history == []
    {
      sessions, history := map[], [];
    }

    ghost predicate Valid()
      reads this
    {
      sessions == Replay(history)
    }

    /** Issues a session for a verification that succeeded, if a random token can be had. */
    method Verify(authenticated: bool, random: bool, token: string, now: int) returns (issued: bool)
      requires Valid()
      modifies this
      ensures Valid() && issued == (authenticated && random)
      ensures history == old(history) + if issued then [Issue(token, now)] else []
      ensures sessions == if issued then old(sessions)[token := now + LIFETIME] else old(sessions)
    {
      issued := authenticated && random;
      if issued {
        Append(Issue(token, now));
        sessions := sessions[token := now + LIFETIME];
      }
    }

    method Logout(token: string)
      requires Valid()
      modifies this
      ensures Valid() && token !in sessions
      ensures history == old(history) + [Request.Logout(token)]
      ensures sessions == old(sessions) - {token}
    {
      Append(Request.Logout(token));
      sessions := sessions - {token};
    }

    /** Looks a token up, forgetting it if it has expired. */
    method Protected(token: string, now: int) returns (admitted: bool)
      requires Valid()
      modifies this
      ensures Valid()
      ensures history == old(history) + [Request.Protected(token, now)]
      ensures admitted <==> Admits(old(sessions), token, now)
      ensures FreshTokens(old(history)) && MonotoneClock(history) ==>
                (admitted <==> Entitled(old(history), token, now))
    {
      Append(Request.Protected(token, now));
      var found := token in sessions;
      if found && now > sessions[token] {
        sessions := sessions - {token};
        found := false;
      }
      admitted := token != "" && found;
      if FreshTokens(old(history)) && MonotoneClock(history) {
        AdmittedExactlyWhenEntitled(old(history), token, now);
      }
    }

    ghost method Append(r: Request)
      modifies this`history
      ensures history == old(history) + [r]
      ensures Replay(history) == After(Replay(old(history)), r)
    {
      assert (history + [r])[..|history|] == history;
      history := history + [r];
    }
  }

  // ------------------------------------------------------------------
  // The specification over the history
  // ------------------------------------------------------------------

  ghost predicate FreshTokens(history: seq<Request>) {
    && (forall i :: 0 <= i < |history| && history[i].Issue? ==> history[i].token != "")
    && (forall i, j :: 0 <= i < j < |history| && history[i].Issue? && history[j].Issue? ==>
          history[i].token != history[j].token)
  }

  ghost predicate MonotoneClock(history: seq<Request>) {
    forall i, j :: 0 <= i < j < |history| && !history[i].Logout? && !history[j].Logout? ==>
      history[i].at <= history[j].at
  }

  ghost predicate LoggedOutAfter(history: seq<Request>, i: int, token: string) {
    exists j :: i < j < |history| && 0 <= j && history[j] == Logout(token)
  }

  /** A session issued at most its lifetime ago, and not logged out since. */
  ghost predicate Entitled(history: seq<Request>, token: string, now: int) {
    exists i :: 0 <= i < |history| && history[i].Issue? && history[i].token == token
                && now <= history[i].at + LIFETIME && !LoggedOutAfter(history, i, token)
  }

  /** A request that makes the server forget the session issued at `issued`. */
  ghost predicate Ends(r: Request, token: string, issued: int) {
    r == Logout(token) || (r.Protected? && r.token == token && r.at > issued + LIFETIME)
  }

  ghost predicate HoldsFrom(history: seq<Request>, i: int, token: string) {
    && 0 <= i < |history| && history[i].Issue? && history[i].token == token
    && forall j :: i < j < |history| ==> !Ends(history[j], token, history[i].at)
  }

  lemma HoldsLonger(history: seq<Request>, r: Request, i: int, token: string)
    requires 0 <= i < |history| && history[i].Issue? && history[i].token == token
    ensures HoldsFrom(history + [r], i, token)
            <==> HoldsFrom(history, i, token) && !Ends(r, token, history[i].at)
  {
    var longer := history + [r];
    assert longer[|history|] == r;
    if HoldsFrom(longer, i, token) {
      forall j | i < j < |history|
        ensures !Ends(history[j], token, history[i].at)
      {
        assert longer[j] == history[j];
      }
    }
  }

  /** What the table holds, for any clock: a token is stored exactly while nothing has
      ended it since it was issued. */
  lemma {:induction false} TableFollowsHistory(history: seq<Request>, token: string)
    requires FreshTokens(history)
    ensures token in Replay(history) <==> exists i :: HoldsFrom(history, i, token)
    ensures forall i :: HoldsFrom(history, i, token) ==>
              token in Replay(history) && Replay(history)[token] == history[i].at + LIFETIME
    decreases |history|
  {
    if history != [] {
      var front, r := history[..|history| - 1], history[|history| - 1];
      assert history == front + [r];
      assert FreshTokens(front);
      TableFollowsHistory(front, token);
      forall i | 0 <= i < |front| && front[i].Issue? && front[i].token == token
        ensures HoldsFrom(history, i, token) <==> HoldsFrom(front, i, token) && !Ends(r, token, front[i].at)
      {
        HoldsLonger(front, r, i, token);
      }
      if r.Issue? && r.token == token {
        assert HoldsFrom(history, |front|, token);
        NothingHeldBefore(history, token);
      } else {
        assert !HoldsFrom(history, |front|, token);
        assert forall i :: HoldsFrom(history, i, token) ==> HoldsFrom(front, i, token);
        if token in Replay(front) {
          var i :| HoldsFrom(front, i, token);
          assert HoldsFrom(history, i, token) <==> !Ends(r, token, front[i].at);
        }
      }
    }
  }

  lemma NothingHeldBefore(history: seq<Request>, token: string)
    requires FreshTokens(history) && history != []
    requires history[|history| - 1].Issue? && history[|history| - 1].token == token
    ensures forall i :: HoldsFrom(history, i, token) ==> i == |history| - 1
  {
  }

  /** Lazy expiry refines the specification: over every sequence of requests, with a
      clock that never goes back and tokens that never repeat, a token is admitted
      exactly when it was issued within the last quarter of an hour and not logged
      out since. */
  lemma AdmittedExactlyWhenEntitled(history: seq<Request>, token: string, now: int)
    requires FreshTokens(history) && MonotoneClock(history + [Protected(token, now)])
    ensures Admits(Replay(history), token, now) <==> Entitled(history, token, now)
  {
    var longer := history + [Protected(token, now)];
    TableFollowsHistory(history, token);
    if Entitled(history, token, now) {
      var i :| 0 <= i < |history| && history[i].Issue? && history[i].token == token
               && now <= history[i].at + LIFETIME && !LoggedOutAfter(history, i, token);
      forall j | i < j < |history|
        ensures !Ends(history[j], token, history[i].at)
      {
        assert history[j] != Logout(token);
        assert longer[j] == history[j] && longer[|history|] == Protected(token, now);
      }
      assert HoldsFrom(history, i, token);
    }
    if Admits(Replay(history), token, now) {
      var i :| HoldsFrom(history, i, token);
      assert forall j :: i < j < |history| && history[j] == Logout(token) ==>
          Ends(history[j], token, history[i].at);
    }
  }

  /** The clock assumption is needed: after a reading past the expiry, a clock that goes
      back finds the session gone although the specification would admit it. */
  lemma ClockGoingBackLosesSession(token: string)
    requires token != ""
    ensures var history := [Issue(token, 0), Protected(token, LIFETIME + 1)];
            && FreshTokens(history) && Entitled(history, token, 0)
            && !Admits(Replay(history), token, 0)
  {
    var first, history := [Issue(token, 0)], [Issue(token, 0), Protected(token, LIFETIME + 1)];
    assert first[..0] == [] && history[..1] == first;
    assert Replay(first) == map[token := LIFETIME];
    assert Replay(history) == map[];
    assert history[0].Issue? && !LoggedOutAfter(history, 0, token);
  }
}
