/** The codes an authorize session gives rise to, over whole runs of the protocol: when a session yields
    one code, and the runs in which it yields two (internal/auth/oauth_server.go). */
module OAuthLogins {
  import opened OAuthStore
  import opened OAuthProtocol

  /** No two codes came from one session. */
  ghost predicate OneCodePerSession(s: State) {
    forall c, d :: CodeOf(s, c, d) ==> c == d
  }

  /** Both codes came from one session. */
  predicate CodeOf(s: State, c: string, d: string) {
    c in s.tables.codes && d in s.tables.codes && c in s.origin && d in s.origin && s.origin[c] == s.origin[d]
  }

  ghost predicate HasCode(s: State, session: string) {
    exists c :: c in s.tables.codes && c in s.origin && s.origin[c] == session
  }

  /** The login has saved a code for the session. */
  predicate HasSaved(th: Thread, session: string) {
    (th.LoginSaved? || th.LoginDone?) && th.session == session
  }

  /** The login at j saved the code c. */
  predicate SavedBy(s: State, j: nat, c: string) {
    j in s.threads && (s.threads[j].LoginSaved? || s.threads[j].LoginDone?) && s.threads[j].code == c
  }

  ghost predicate AnySaved(s: State, session: string) {
    exists j :: j in s.threads && HasSaved(s.threads[j], session)
  }

  /** Every code was saved by one login, for the session the login read. */
  ghost predicate SavesOk(s: State) {
    && (forall j, c :: SavedBy(s, j, c) ==> c in s.tables.codes && c in s.origin && s.origin[c] == s.threads[j].session)
    && (forall c :: c in s.tables.codes && c in s.origin ==> exists j :: SavedBy(s, j, c))
    && (forall i, j, c :: SavedBy(s, i, c) && SavedBy(s, j, c) ==> i == j)
  }

  lemma CodesAreSaved(s: State, session: string)
    requires SavesOk(s)
    ensures HasCode(s, session) <==> AnySaved(s, session)
  {
    if HasCode(s, session) {
      var c :| c in s.tables.codes && c in s.origin && s.origin[c] == session;
      var j :| SavedBy(s, j, c);
      assert HasSaved(s.threads[j], session);
    }
    if AnySaved(s, session) {
      var j :| j in s.threads && HasSaved(s.threads[j], session);
      assert SavedBy(s, j, s.threads[j].code);
    }
  }

  /** No two logins have saved a code for one session. */
  ghost predicate OneLoginPerSession(s: State) {
    forall i, j, x ::
      i in s.threads && j in s.threads && HasSaved(s.threads[i], x) && HasSaved(s.threads[j], x) ==> i == j
  }

  /** A session has two codes exactly when two logins that read it both saved one. */
  lemma TwoCodesExactly(s: State)
    requires SavesOk(s)
    ensures OneCodePerSession(s) <==> OneLoginPerSession(s)
  {
    if OneCodePerSession(s) {
      forall i, j, x | i in s.threads && j in s.threads && HasSaved(s.threads[i], x) && HasSaved(s.threads[j], x)
        ensures i == j
      {
        var (c, d) := (s.threads[i].code, s.threads[j].code);
        assert SavedBy(s, i, c) && SavedBy(s, j, d);
        assert CodeOf(s, c, d);
      }
    }
    if OneLoginPerSession(s) {
      forall c, d | CodeOf(s, c, d) ensures c == d {
        var i :| SavedBy(s, i, c);
        var j :| SavedBy(s, j, d);
        assert HasSaved(s.threads[i], s.origin[c]) && HasSaved(s.threads[j], s.origin[c]);
      }
    }
  }

  /** The event saves a code for a session that another login has saved one for. */
  ghost predicate SavesSecondCode(s: State, e: Event) {
    && e.Run? && e.id in s.threads && s.threads[e.id].LoginFetched?
    && e.up && e.drawn !in s.tables.codes && AnySaved(s, s.threads[e.id].session)
  }

  /** Every other statement leaves the codes where they are. */
  lemma OtherStepsKeepOrigins(cfg: Config, s: State, e: Event)
    requires e.Run? && e.id in s.threads ==> !s.threads[e.id].LoginFetched?
    ensures var s' := Step(cfg, s, e); s'.tables.codes.Keys == s.tables.codes.Keys && s'.origin == s.origin
  {
    hide VerifyPkce, CodeRow, RefreshRow, SessionRow;
    if e.Run? && e.id in s.threads {
      match s.threads[e.id]
      case CodeStart(req) =>
      case CodeFetched(_, _, _) =>
      case CodeMarked(_, _, _) =>
      case RefreshStart(_, _) =>
      case RefreshFetched(_, _) =>
      case RefreshDeleted(_, _) =>
      case LoginStart(_, _) =>
      case LoginSaved(_, _) =>
      case _ =>
    }
  }

  /** What saving a login's code does to the codes and their sessions. */
  lemma SavedOrigins(cfg: Config, s: State, id: nat, th: Thread, up: bool, drawn: string)
    requires th.LoginFetched?
    ensures var s' := SaveLoginCode(cfg, s, id, th, up, drawn);
      if up && drawn !in s.tables.codes
      then s'.tables.codes.Keys == s.tables.codes.Keys + {drawn} && s'.origin == s.origin[drawn := th.session]
      else s'.tables.codes == s.tables.codes && s'.origin == s.origin
  {
  }

  /** A session keeps one code over a step exactly when the step saves no second one. */
  lemma StepKeepsOneCodeExactly(cfg: Config, s: State, e: Event)
    requires Inv(cfg, s) && SavesOk(s) && OneCodePerSession(s)
    ensures OneCodePerSession(Step(cfg, s, e)) <==> !SavesSecondCode(s, e)
  {
    hide ThreadsOk, OneRedeemer, LogOk, RootsOk, SavesOk, AnySaved;
    var s' := Step(cfg, s, e);
    if e.Run? && e.id in s.threads && s.threads[e.id].LoginFetched? {
      var th := s.threads[e.id];
      assert s' == SaveLoginCode(cfg, s, e.id, th, e.up, e.drawn);
      SavedOrigins(cfg, s, e.id, th, e.up, e.drawn);
      hide Step, SaveLoginCode;
      CodesAreSaved(s, th.session);
      SameOrNewCode(s, s', e, th);
    } else {
      OtherStepsKeepOrigins(cfg, s, e);
      hide Step;
      forall c, d | CodeOf(s', c, d) ensures c == d {
        assert CodeOf(s, c, d);
      }
    }
  }

  lemma SameOrNewCode(s: State, s': State, e: Event, th: Thread)
    requires e.Run? && e.id in s.threads && s.threads[e.id] == th && th.LoginFetched? && OneCodePerSession(s)
      && CodesOk(s)
    requires if e.up && e.drawn !in s.tables.codes
      then s'.tables.codes.Keys == s.tables.codes.Keys + {e.drawn} && s'.origin == s.origin[e.drawn := th.session]
      else s'.tables.codes == s.tables.codes && s'.origin == s.origin
    ensures OneCodePerSession(s') <==> !(e.up && e.drawn !in s.tables.codes && HasCode(s, th.session))
  {
    if e.up && e.drawn !in s.tables.codes && HasCode(s, th.session) {
      var c :| c in s.tables.codes && c in s.origin && s.origin[c] == th.session;
      assert CodeOf(s', c, e.drawn);
    } else {
      forall c, d | CodeOf(s', c, d) ensures c == d {
        if c in s.tables.codes && d in s.tables.codes {
          assert CodeOf(s, c, d);
        }
      }
    }
  }

  /** A request that saves no code moved. */
  lemma MoveKeepsSaves(s: State, s': State, id: nat)
    requires SavesOk(s)
    requires s'.tables.codes.Keys == s.tables.codes.Keys && s'.origin == s.origin
    requires s'.threads == s.threads || (id in s'.threads && s'.threads == s.threads[id := s'.threads[id]]
      && forall x, c :: SavedWith(s'.threads[id], x, c) <==> id in s.threads && SavedWith(s.threads[id], x, c))
    ensures SavesOk(s')
  {
    forall j, c ensures SavedBy(s', j, c) <==> SavedBy(s, j, c) {
      if j == id && id in s'.threads {
        SavedIsWith(s', id, c);
        SavedIsWith(s, id, c);
      }
    }
    forall j, c | SavedBy(s', j, c) ensures s'.threads[j].session == s.threads[j].session {
      if s'.threads != s.threads && j == id {
        assert SavedWith(s'.threads[id], s'.threads[id].session, c);
      }
    }
  }

  /** The login has saved the code c for the session x. */
  predicate SavedWith(th: Thread, x: string, c: string) {
    (th.LoginSaved? || th.LoginDone?) && th.session == x && th.code == c
  }

  lemma SavedIsWith(s: State, j: nat, c: string)
    ensures SavedBy(s, j, c) <==> exists x :: j in s.threads && SavedWith(s.threads[j], x, c)
  {
    if SavedBy(s, j, c) {
      assert SavedWith(s.threads[j], s.threads[j].session, c);
    }
  }

  lemma SaveKeepsSaves(cfg: Config, s: State, id: nat, th: Thread, up: bool, drawn: string)
    requires SavesOk(s) && CodesOk(s) && th.LoginFetched? && id in s.threads && s.threads[id] == th
    ensures SavesOk(SaveLoginCode(cfg, s, id, th, up, drawn))
  {
    var s' := SaveLoginCode(cfg, s, id, th, up, drawn);
    SavedOrigins(cfg, s, id, th, up, drawn);
    if s'.threads[id].Refused? {
      MoveKeepsSaves(s, s', id);
    } else {
      forall j, c ensures SavedBy(s', j, c) <==> if j == id then c == drawn else SavedBy(s, j, c) {
      }
      forall c | c in s'.tables.codes && c in s'.origin ensures exists j :: SavedBy(s', j, c) {
        if c == drawn {
          assert SavedBy(s', id, c);
        } else {
          var j :| SavedBy(s, j, c);
          assert SavedBy(s', j, c);
        }
      }
    }
  }

  /** Which requests an event moves. */
  lemma EventMoves(cfg: Config, s: State, e: Event)
    requires e.Run? && e.id in s.threads ==> !s.threads[e.id].LoginFetched?
    ensures var (s', id) := (Step(cfg, s, e), if e.Run? || e.Arrive? then e.id else 0);
      s'.threads == s.threads || (id in s'.threads && s'.threads == s.threads[id := s'.threads[id]]
        && forall x, c :: SavedWith(s'.threads[id], x, c) <==> id in s.threads && SavedWith(s.threads[id], x, c))
  {
    hide VerifyPkce, CodeRow, RefreshRow, SessionRow;
    if e.Run? && e.id in s.threads {
      match s.threads[e.id]
      case CodeStart(req) =>
      case CodeFetched(_, _, _) =>
      case CodeMarked(_, _, _) =>
      case RefreshStart(_, _) =>
      case RefreshFetched(_, _) =>
      case RefreshDeleted(_, _) =>
      case LoginStart(_, _) =>
      case LoginSaved(_, _) =>
      case _ =>
    }
  }

  lemma StepKeepsSaves(cfg: Config, s: State, e: Event)
    requires Inv(cfg, s) && SavesOk(s)
    ensures SavesOk(Step(cfg, s, e))
  {
    hide ThreadsOk, OneRedeemer, LogOk, RootsOk, CodesOk, SavesOk;
    if e.Run? && e.id in s.threads && s.threads[e.id].LoginFetched? {
      hide SaveLoginCode;
      SaveKeepsSaves(cfg, s, e.id, s.threads[e.id], e.up, e.drawn);
    } else {
      hide Step;
      EventMoves(cfg, s, e);
      OtherStepsKeepOrigins(cfg, s, e);
      MoveKeepsSaves(s, Step(cfg, s, e), if e.Run? || e.Arrive? then e.id else 0);
    }
  }

  // ----- Over whole runs -----------------------------------------------------------------------

  ghost predicate OneCodeAt(trace: seq<State>, k: nat)
    requires k < |trace|
  {
    OneCodePerSession(trace[k])
  }

  ghost predicate SecondCodeAt(events: seq<Event>, trace: seq<State>, k: nat)
    requires |trace| == |events| + 1 && k < |events|
  {
    SavesSecondCode(trace[k], events[k])
  }

  lemma {:induction false} RunKeepsSaves(cfg: Config, events: seq<Event>, trace: seq<State>, k: nat)
    requires IsRun(cfg, events, trace) && k <= |events|
    ensures SavesOk(trace[k])
  {
    hide Inv, Step, FreshToken;
    if k > 0 {
      hide IsRun, SavesOk;
      TraceLength(cfg, events, trace);
      RunKeepsSaves(cfg, events, trace, k - 1);
      RunKeeps(cfg, events, trace, k - 1);
      EventGoes(cfg, events, trace, k - 1);
      StepKeepsSaves(cfg, trace[k - 1], events[k - 1]);
    }
  }

  /** In every reachable state, so, a session has two codes exactly when two logins that read it both saved
      one. */
  lemma TwoCodesExactlyWhenReachable(cfg: Config, s: State)
    requires Reachable(cfg, s)
    ensures OneCodePerSession(s) <==> OneLoginPerSession(s)
  {
    hide IsRun, SavesOk, OneCodePerSession, OneLoginPerSession;
    var events, trace :| IsRun(cfg, events, trace) && s in trace;
    TraceLength(cfg, events, trace);
    var k: nat :| k < |trace| && trace[k] == s;
    RunKeepsSaves(cfg, events, trace, k);
    TwoCodesExactly(s);
  }

  lemma {:induction false} RunWithoutSecondCode(cfg: Config, events: seq<Event>, trace: seq<State>, k: nat)
    requires IsRun(cfg, events, trace) && k <= |events|
    requires forall i: nat :: i < |events| ==> !SecondCodeAt(events, trace, i)
    ensures OneCodeAt(trace, k)
  {
    hide Inv, Step, FreshToken, SavesSecondCode, SavesOk;
    if k > 0 {
      hide IsRun, OneCodePerSession;
      TraceLength(cfg, events, trace);
      RunWithoutSecondCode(cfg, events, trace, k - 1);
      RunKeeps(cfg, events, trace, k - 1);
      RunKeepsSaves(cfg, events, trace, k - 1);
      EventGoes(cfg, events, trace, k - 1);
      assert !SecondCodeAt(events, trace, k - 1) && OneCodeAt(trace, k - 1);
      StepKeepsOneCodeExactly(cfg, trace[k - 1], events[k - 1]);
    }
  }

  /** Over every run, however its requests interleave and whatever fails, a session yields at most one
      code all along exactly when no login saves a code for a session that another has saved one for. */
  lemma OneCodePerSessionExactly(cfg: Config, events: seq<Event>, trace: seq<State>)
    requires IsRun(cfg, events, trace)
    ensures (forall k: nat :: k <= |events| ==> OneCodeAt(trace, k))
       <==> (forall k: nat :: k < |events| ==> !SecondCodeAt(events, trace, k))
  {
    hide IsRun, SavesSecondCode, OneCodePerSession, SavesOk;
    TraceLength(cfg, events, trace);
    if forall k: nat :: k < |events| ==> !SecondCodeAt(events, trace, k) {
      forall k: nat | k <= |events| ensures OneCodeAt(trace, k) {
        RunWithoutSecondCode(cfg, events, trace, k);
      }
    } else {
      var k: nat :| k < |events| && SecondCodeAt(events, trace, k);
      RunKeeps(cfg, events, trace, k);
      RunKeepsSaves(cfg, events, trace, k);
      EventGoes(cfg, events, trace, k);
      if OneCodeAt(trace, k) {
        hide FreshToken, Step;
        StepKeepsOneCodeExactly(cfg, trace[k], events[k]);
        assert !OneCodeAt(trace, k + 1);
      }
    }
  }

  // ----- Logins one at a time ------------------------------------------------------------------

  /** The login has read its session, or saved its code, and not yet deleted the session. */
  predicate Pending(th: Thread, session: string) {
    (th.LoginFetched? || th.LoginSaved?) && th.session == session
  }

  /** No login reads a session while another of that session is pending, and session deletes succeed. */
  ghost predicate SerialLogin(s: State, e: Event) {
    e.Run? && e.id in s.threads ==>
      && (s.threads[e.id].LoginStart? ==> forall j ::
        j in s.threads ==> !Pending(s.threads[j], s.threads[e.id].session))
      && (s.threads[e.id].LoginSaved? ==> e.up)
  }

  ghost predicate SavedLogin(s: State, session: string) {
    exists j :: j in s.threads && s.threads[j].LoginSaved? && s.threads[j].session == session
  }

  /** A session with a code is gone, or its login is about to delete it; a login that has read its
      session finds no code of it; and a session has one pending login. */
  ghost predicate LoginsOk(s: State) {
    && (forall x :: x in s.tables.sessions && HasCode(s, x) ==> SavedLogin(s, x))
    && (forall j :: j in s.threads && s.threads[j].LoginFetched? ==> !HasCode(s, s.threads[j].session))
    && (forall i, j, x ::
      i in s.threads && j in s.threads && Pending(s.threads[i], x) && Pending(s.threads[j], x) ==> i == j)
  }

  lemma SameCodesSameSessions(s: State, s': State, x: string)
    requires s'.tables.codes.Keys == s.tables.codes.Keys && s'.origin == s.origin
    ensures HasCode(s', x) <==> HasCode(s, x)
  {
  }

  /** One request moved, and no login is pending that was not. */
  lemma UnrelatedMove(s: State, s': State, id: nat)
    requires LoginsOk(s)
    requires s'.tables.codes.Keys == s.tables.codes.Keys && s'.origin == s.origin
      && s'.tables.sessions == s.tables.sessions
    requires s'.threads == s.threads || (id in s'.threads && s'.threads == s.threads[id := s'.threads[id]]
      && !s'.threads[id].LoginFetched? && !s'.threads[id].LoginSaved?
      && (id in s.threads ==> !s.threads[id].LoginSaved?))
    ensures LoginsOk(s')
  {
    hide HasCode;
    forall x ensures HasCode(s', x) <==> HasCode(s, x) {
      SameCodesSameSessions(s, s', x);
    }
    forall x | x in s'.tables.sessions && HasCode(s', x) ensures SavedLogin(s', x) {
      var j :| j in s.threads && s.threads[j].LoginSaved? && s.threads[j].session == x;
      assert s'.threads[j] == s.threads[j];
    }
  }

  lemma ReadKeepsLogins(s: State, id: nat, th: Thread, up: bool)
    requires LoginsOk(s) && th.LoginStart? && id in s.threads && s.threads[id] == th
    requires forall j :: j in s.threads ==> !Pending(s.threads[j], th.session)
    ensures LoginsOk(FetchSession(s, id, th, up))
  {
    hide HasCode;
    var s' := FetchSession(s, id, th, up);
    forall x ensures HasCode(s', x) <==> HasCode(s, x) {
      SameCodesSameSessions(s, s', x);
    }
    forall x | x in s'.tables.sessions && HasCode(s', x) ensures SavedLogin(s', x) {
      var j :| j in s.threads && s.threads[j].LoginSaved? && s.threads[j].session == x;
      assert s'.threads[j] == s.threads[j];
    }
    assert s'.threads[id].LoginFetched? ==> th.session in s.tables.sessions && !HasCode(s, th.session) by {
      assert forall j :: j in s.threads ==> !Pending(s.threads[j], th.session);
    }
  }

  lemma SaveKeepsLogins(cfg: Config, s: State, id: nat, th: Thread, up: bool, drawn: string)
    requires LoginsOk(s) && th.LoginFetched? && id in s.threads && s.threads[id] == th
    ensures LoginsOk(SaveLoginCode(cfg, s, id, th, up, drawn))
  {
    var s' := SaveLoginCode(cfg, s, id, th, up, drawn);
    SavedOrigins(cfg, s, id, th, up, drawn);
    assert Pending(th, th.session);
    forall x | HasCode(s', x) && x != th.session ensures HasCode(s, x) {
      var c :| c in s'.tables.codes && c in s'.origin && s'.origin[c] == x;
      assert c in s.tables.codes && s.origin[c] == x;
    }
    hide HasCode;
    if s'.threads[id].Refused? {
      UnrelatedMove(s, s', id);
    } else {
      forall x | x in s'.tables.sessions && HasCode(s', x) ensures SavedLogin(s', x) {
        if x == th.session {
          assert s'.threads[id].LoginSaved?;
        } else {
          var j :| j in s.threads && s.threads[j].LoginSaved? && s.threads[j].session == x;
          assert s'.threads[j] == s.threads[j];
        }
      }
      forall j | j in s'.threads && s'.threads[j].LoginFetched? ensures !HasCode(s', s'.threads[j].session) {
        assert Pending(s.threads[j], s.threads[j].session);
      }
    }
  }

  lemma DropKeepsLogins(s: State, id: nat, th: Thread)
    requires LoginsOk(s) && th.LoginSaved? && id in s.threads && s.threads[id] == th
    ensures LoginsOk(DropSession(s, id, th, true))
  {
    hide HasCode;
    var s' := DropSession(s, id, th, true);
    forall x ensures HasCode(s', x) <==> HasCode(s, x) {
      SameCodesSameSessions(s, s', x);
    }
    forall x | x in s'.tables.sessions && HasCode(s', x) ensures SavedLogin(s', x) {
      var j :| j in s.threads && s.threads[j].LoginSaved? && s.threads[j].session == x;
      assert s'.threads[j] == s.threads[j];
    }
  }

  lemma AuthorizeKeepsLogins(cfg: Config, s: State, e: Event)
    requires LoginsOk(s) && CodesOk(s) && e.Authorize?
    ensures LoginsOk(Step(cfg, s, e))
  {
    var s' := Step(cfg, s, e);
    forall x | x in s'.tables.sessions && HasCode(s', x) ensures SavedLogin(s', x) {
      assert HasCode(s, x);
      var j :| j in s.threads && s.threads[j].LoginSaved? && s.threads[j].session == x;
      assert s'.threads[j] == s.threads[j];
    }
    forall x ensures HasCode(s', x) <==> HasCode(s, x) {
      SameCodesSameSessions(s, s', x);
    }
  }

  /** The other statements touch no session and make no login pending. */
  lemma OtherStepsMove(cfg: Config, s: State, e: Event)
    requires !e.Authorize?
    requires e.Run? && e.id in s.threads ==>
      var th := s.threads[e.id]; !th.LoginStart? && !th.LoginFetched? && !th.LoginSaved?
    ensures var (s', id) := (Step(cfg, s, e), if e.Run? || e.Arrive? then e.id else 0);
      && s'.tables.sessions == s.tables.sessions
      && (s'.threads == s.threads || (id in s'.threads && s'.threads == s.threads[id := s'.threads[id]]
            && !s'.threads[id].LoginFetched? && !s'.threads[id].LoginSaved?
            && (id in s.threads ==> !s.threads[id].LoginSaved?)))
  {
    hide VerifyPkce, CodeRow, RefreshRow;
    if e.Run? && e.id in s.threads {
      match s.threads[e.id]
      case CodeStart(req) =>
      case CodeFetched(_, _, _) =>
      case CodeMarked(_, _, _) =>
      case RefreshStart(_, _) =>
      case RefreshFetched(_, _) =>
      case RefreshDeleted(_, _) =>
      case _ =>
    }
  }

  lemma StepKeepsLogins(cfg: Config, s: State, e: Event)
    requires Inv(cfg, s) && SavesOk(s) && LoginsOk(s) && SerialLogin(s, e)
    ensures LoginsOk(Step(cfg, s, e)) && !SavesSecondCode(s, e)
  {
    hide ThreadsOk, OneRedeemer, LogOk, RootsOk, CodesOk, FetchSession, SaveLoginCode, DropSession, HasCode, SavesOk,
      AnySaved;
    hide FetchCode, MarkCode, ReplyCode, FetchRefresh, DeleteOld, ReplyRefresh;
    if e.Authorize? {
      AuthorizeKeepsLogins(cfg, s, e);
    } else if e.Run? && e.id in s.threads && s.threads[e.id].LoginStart? {
      hide LoginsOk;
      ReadKeepsLogins(s, e.id, s.threads[e.id], e.up);
    } else if e.Run? && e.id in s.threads && s.threads[e.id].LoginFetched? {
      CodesAreSaved(s, s.threads[e.id].session);
      assert !SavesSecondCode(s, e);
      hide LoginsOk;
      SaveKeepsLogins(cfg, s, e.id, s.threads[e.id], e.up, e.drawn);
    } else if e.Run? && e.id in s.threads && s.threads[e.id].LoginSaved? {
      hide LoginsOk;
      DropKeepsLogins(s, e.id, s.threads[e.id]);
    } else {
      OtherStepsMove(cfg, s, e);
      OtherStepsKeepOrigins(cfg, s, e);
      hide LoginsOk, Step;
      UnrelatedMove(s, Step(cfg, s, e), if e.Run? || e.Arrive? then e.id else 0);
    }
  }

  ghost predicate SerialLoginAt(events: seq<Event>, trace: seq<State>, k: nat)
    requires |trace| == |events| + 1 && k < |events|
  {
    SerialLogin(trace[k], events[k])
  }

  lemma {:induction false} SerialLoginsOk(cfg: Config, events: seq<Event>, trace: seq<State>, k: nat)
    requires IsRun(cfg, events, trace) && k <= |events|
    requires forall i: nat {:trigger SerialLoginAt(events, trace, i)} ::
      i < |events| ==> SerialLoginAt(events, trace, i)
    ensures LoginsOk(trace[k])
  {
    hide Inv, Step, FreshToken, SerialLogin, SavesOk;
    if k > 0 {
      hide IsRun, LoginsOk;
      TraceLength(cfg, events, trace);
      SerialLoginsOk(cfg, events, trace, k - 1);
      RunKeeps(cfg, events, trace, k - 1);
      RunKeepsSaves(cfg, events, trace, k - 1);
      EventGoes(cfg, events, trace, k - 1);
      assert SerialLoginAt(events, trace, k - 1);
      StepKeepsLogins(cfg, trace[k - 1], events[k - 1]);
    }
  }

  /** In particular when the logins of a session run one at a time and their session deletes succeed,
      every session yields at most one code. */
  lemma SerialLoginsYieldOneCode(cfg: Config, events: seq<Event>, trace: seq<State>, k: nat)
    requires IsRun(cfg, events, trace) && k <= |events|
    requires forall i: nat {:trigger SerialLoginAt(events, trace, i)} ::
      i < |events| ==> SerialLoginAt(events, trace, i)
    ensures OneCodeAt(trace, k)
  {
    hide IsRun, Inv, Step, FreshToken, LoginsOk, SerialLogin, SavesSecondCode, OneCodePerSession, SavesOk;
    TraceLength(cfg, events, trace);
    forall i: nat | i < |events| ensures !SecondCodeAt(events, trace, i) {
      SerialLoginsOk(cfg, events, trace, i);
      RunKeeps(cfg, events, trace, i);
      RunKeepsSaves(cfg, events, trace, i);
      assert SerialLoginAt(events, trace, i);
      StepKeepsLogins(cfg, trace[i], events[i]);
    }
    RunWithoutSecondCode(cfg, events, trace, k);
  }

  // ----- Two logins on one session -------------------------------------------------------------

  function ReadTwice(a: nat, b: nat, session: string, u: string, v: string, x: string): seq<Event> {
    [Arrive(a, LoginStart(session, u)), Arrive(b, LoginStart(session, v)), Run(a, true, true, x), Run(b, true, true, x)]
  }

  lemma BothRead(cfg: Config, s: State, a: nat, b: nat, session: string, u: string, v: string, x: string)
    requires Reachable(cfg, s) && a != b && a !in s.threads && b !in s.threads && session in s.tables.sessions
    requires forall i :: 0 <= i < |s.issued| ==> s.issued[i].token != x
    ensures var (s', sess) := (RunAll(cfg, s, ReadTwice(a, b, session, u, v, x)), s.tables.sessions[session]);
      s' == Set(Set(s, a, LoginFetched(session, u, sess)), b, LoginFetched(session, v, sess)) && Reachable(cfg, s')
  {
    hide Reachable, RunAll;
    var sess := s.tables.sessions[session];
    var events := ReadTwice(a, b, session, u, v, x);
    var s1 := Set(s, a, LoginStart(session, u));
    var s2 := Set(s1, b, LoginStart(session, v));
    var s3 := Set(s2, a, LoginFetched(session, u, sess));
    var s4 := Set(s3, b, LoginFetched(session, v, sess));
    assert s4.threads == s.threads[a := LoginFetched(session, u, sess)][b := LoginFetched(session, v, sess)];
    FourSteps(cfg, s, events, s1, s2, s3, s4);
    FourReachable(cfg, s, events, s1, s2, s3, s4);
  }

  /** Two logins that both read a session before either deletes it save two codes for it, one for each
      user, and nothing refuses the second. */
  lemma OverlappingLoginsSaveTwoCodes(cfg: Config, s: State, a: nat, b: nat, session: string, u: string, v: string,
      x: string, y: string)
    requires Reachable(cfg, s) && a != b && a !in s.threads && b !in s.threads && session in s.tables.sessions
    requires x != y && x !in s.tables.codes && y !in s.tables.codes
    requires forall i :: 0 <= i < |s.issued| ==> s.issued[i].token != x && s.issued[i].token != y
    ensures var s' :=
      Step(cfg, Step(cfg, RunAll(cfg, s, ReadTwice(a, b, session, u, v, x)), Run(a, true, true, x)),
        Run(b, true, true, y));
      && Reachable(cfg, s') && CodeOf(s', x, y)
      && s'.tables.codes[x].userId == u && s'.tables.codes[y].userId == v
  {
    hide Reachable, RunAll;
    var both := RunAll(cfg, s, ReadTwice(a, b, session, u, v, x));
    BothRead(cfg, s, a, b, session, u, v, x);
    var s1 := Step(cfg, both, Run(a, true, true, x));
    ReachableStep(cfg, both, Run(a, true, true, x));
    ReachableStep(cfg, s1, Run(b, true, true, y));
  }

  /** And a real run can go so, from the empty tables. */
  lemma TwoCodesAreReachable(cfg: Config)
    ensures exists s :: Reachable(cfg, s) && !OneCodePerSession(s)
  {
    hide Reachable, RunAll;
    var e := Authorize("s", Session("c", "r", "h", "p"));
    InitialIsReachable(cfg);
    ReachableStep(cfg, INITIAL, e);
    var s := Step(cfg, INITIAL, e);
    OverlappingLoginsSaveTwoCodes(cfg, s, 0, 1, "s", "u", "v", "x", "y");
    var s' :=
      Step(cfg, Step(cfg, RunAll(cfg, s, ReadTwice(0, 1, "s", "u", "v", "x")), Run(0, true, true, "x")),
        Run(1, true, true, "y"));
    assert Reachable(cfg, s') && CodeOf(s', "x", "y");
  }
}
