/** Client registration and the start of an authorization: registrations and authorize requests
    interleaved, one store statement at a time (internal/auth/oauth_server.go). */
module ClientRegistry {
  import opened OAuthStore

  const DEFAULT_SCOPE := "satellites"

  datatype Request = Request(clientId: string, redirectUri: string, challenge: string, scope: string)

  /** The oauth_clients and oauth_sessions tables: a client's row is its list of redirect URIs. */
  datatype Db = Db(clients: map<string, seq<string>>, sessions: map<string, Session>)

  /** Where createAuthSession stands: before GetClient, before SaveClient, or with a client in hand. */
  datatype Thread =
    | Asked(req: Request)
    | Unknown(req: Request)
    | Known(req: Request, uris: seq<string>)
    | Started(session: string)
    | Refused

  datatype Registration = Registration(clientId: string, uri: string)

  /** The tables and the requests; and two histories: the redirect URIs clients registered themselves,
      and those an authorize request registered for its client. */
  datatype State = State(db: Db, threads: map<nat, Thread>, registered: set<Registration>, adopted: set<Registration>)

  const INITIAL := State(Db(map[], map[]), map[], {}, {})

  /** A client registers; an authorize request arrives, or runs its next statement; or the login of a
      session finishes, and CompleteAuthorization deletes the session. */
  datatype Event =
    | Register(clientId: string, uris: seq<string>, up: bool)
    | Finish(session: string, up: bool)
    | Arrive(id: nat, req: Request)
    | Run(id: nat, up: bool, drawn: string)

  function Set(s: State, id: nat, th: Thread): State {
    s.(threads := s.threads[id := th])
  }

  /** SaveClient: an upsert, so a row that is there is overwritten. */
  function SaveClient(s: State, clientId: string, uris: seq<string>): State {
    s.(db := s.db.(clients := s.db.clients[clientId := uris]))
  }

  /** GetClient: any error, a missing row or a failed statement, takes the auto-register branch. */
  function LookUp(s: State, id: nat, req: Request, up: bool): State {
    Set(s, id, if up && req.clientId in s.db.clients then Known(req, s.db.clients[req.clientId]) else Unknown(req))
  }

  function AutoRegister(s: State, id: nat, req: Request, up: bool): State {
    if !up then Set(s, id, Refused)
    else
      Set(SaveClient(s, req.clientId, [req.redirectUri]).(adopted :=
        s.adopted + {Registration(req.clientId, req.redirectUri)}),
          id, Known(req, [req.redirectUri]))
  }

  function SessionOf(req: Request): Session {
    Session(req.clientId, req.redirectUri, req.challenge, if req.scope == "" then DEFAULT_SCOPE else req.scope)
  }

  /** The redirect URI test, then SaveSession. */
  function StartSession(s: State, id: nat, req: Request, uris: seq<string>, up: bool, drawn: string): State {
    if req.redirectUri !in uris || !up || drawn in s.db.sessions then Set(s, id, Refused)
    else Set(s.(db := s.db.(sessions := s.db.sessions[drawn := SessionOf(req)])), id, Started(drawn))
  }

  function RunThread(s: State, id: nat, th: Thread, up: bool, drawn: string): State {
    match th
    case Asked(req) => LookUp(s, id, req, up)
    case Unknown(req) => AutoRegister(s, id, req, up)
    case Known(req, uris) => StartSession(s, id, req, uris, up, drawn)
    case Started(_) => s
    case Refused => s
  }

  /** One event.  HandleRegister refuses a registration without redirect URIs. */
  function Step(s: State, e: Event): State {
    match e
    case Register(clientId, uris, up) =>
      if uris == [] || !up then s
      else SaveClient(s, clientId, uris).(registered := s.registered + set u | u in uris :: Registration(clientId, u))
    case Finish(session, up) => if up then s.(db := s.db.(sessions := s.db.sessions - {session})) else s
    case Arrive(id, req) => if id in s.threads then s else Set(s, id, Asked(req))
    case Run(id, up, drawn) => if id in s.threads then RunThread(s, id, s.threads[id], up, drawn) else s
  }

  /** The state after some events. */
  function RunAll(s: State, events: seq<Event>): State
    decreases |events|
  {
    if events == [] then s else Step(RunAll(s, events[..|events| - 1]), events[|events| - 1])
  }

  predicate Goes(events: seq<Event>, trace: seq<State>, k: nat)
    requires |trace| == |events| + 1 && k < |events|
  {
    trace[k + 1] == Step(trace[k], events[k])
  }

  /** A run from the empty tables: its events and the states they go through. */
  ghost predicate IsRun(events: seq<Event>, trace: seq<State>) {
    && |trace| == |events| + 1 && trace[0] == INITIAL
    && forall k: nat {:trigger Goes(events, trace, k)} :: k < |events| ==> Goes(events, trace, k)
  }

  // ----- Every session's redirect URI was registered -------------------------------------------

  /** The client's row is there, and the URI was at some time in it. */
  predicate Backed(s: State, clientId: string, uri: string) {
    clientId in s.db.clients && Registration(clientId, uri) in s.registered + s.adopted
  }

  ghost predicate RowsBacked(s: State) {
    forall c, u :: c in s.db.clients && u in s.db.clients[c] ==> Backed(s, c, u)
  }

  ghost predicate RequestsBacked(s: State) {
    forall id, u :: id in s.threads && s.threads[id].Known? && u in s.threads[id].uris ==>
      Backed(s, s.threads[id].req.clientId, u)
  }

  ghost predicate SessionsBacked(s: State) {
    forall k :: k in s.db.sessions ==> Backed(s, s.db.sessions[k].clientId, s.db.sessions[k].redirectUri)
  }

  ghost predicate Inv(s: State) {
    RowsBacked(s) && RequestsBacked(s) && SessionsBacked(s)
  }

  lemma BackedStays(s: State, e: Event, c: string, u: string)
    requires Backed(s, c, u)
    ensures Backed(Step(s, e), c, u)
  {
  }

  lemma RowsStayBacked(s: State, e: Event)
    requires RowsBacked(s)
    ensures RowsBacked(Step(s, e))
  {
    var s' := Step(s, e);
    forall c, u | c in s'.db.clients && u in s'.db.clients[c] ensures Backed(s', c, u) {
      if Backed(s, c, u) {
        BackedStays(s, e, c, u);
      }
    }
  }

  lemma RequestsStayBacked(s: State, e: Event)
    requires RowsBacked(s) && RequestsBacked(s)
    ensures RequestsBacked(Step(s, e))
  {
    var s' := Step(s, e);
    forall id, u | id in s'.threads && s'.threads[id].Known? && u in s'.threads[id].uris
      ensures Backed(s', s'.threads[id].req.clientId, u)
    {
      if Backed(s, s'.threads[id].req.clientId, u) {
        BackedStays(s, e, s'.threads[id].req.clientId, u);
      }
    }
  }

  lemma SessionsStayBacked(s: State, e: Event)
    requires RequestsBacked(s) && SessionsBacked(s)
    ensures SessionsBacked(Step(s, e))
  {
    var s' := Step(s, e);
    forall k | k in s'.db.sessions ensures Backed(s', s'.db.sessions[k].clientId, s'.db.sessions[k].redirectUri) {
      BackedStays(s, e, s'.db.sessions[k].clientId, s'.db.sessions[k].redirectUri);
    }
  }

  lemma StepKeeps(s: State, e: Event)
    requires Inv(s)
    ensures Inv(Step(s, e))
  {
    hide Step, RowsBacked, RequestsBacked, SessionsBacked;
    RowsStayBacked(s, e);
    RequestsStayBacked(s, e);
    SessionsStayBacked(s, e);
  }

  lemma {:induction false} RunKeeps(events: seq<Event>, trace: seq<State>, i: nat)
    requires IsRun(events, trace) && i <= |events|
    ensures Inv(trace[i])
  {
    if i > 0 {
      hide Inv, Step;
      RunKeeps(events, trace, i - 1);
      assert Goes(events, trace, i - 1);
      StepKeeps(trace[i - 1], events[i - 1]);
    }
  }

  /** In every interleaving of registrations and authorize requests, whatever statements fail, every
      session at any time redirects to a URI that its own client registered, or that a request
      registered for it. */
  lemma SessionsRedirectToRegisteredUris(events: seq<Event>, trace: seq<State>, i: nat, k: string)
    requires IsRun(events, trace) && i <= |events| && k in trace[i].db.sessions
    ensures var (s, sess) := (trace[i], trace[i].db.sessions[k]);
      sess.clientId in s.db.clients && (Registration(sess.clientId, sess.redirectUri) in s.registered
        || Registration(sess.clientId, sess.redirectUri) in s.adopted)
  {
    RunKeeps(events, trace, i);
  }

  /** Every URI the client's row and its requests hold is one it registered itself, and no request is
      about to register one for it. */
  ghost predicate OwnUris(s: State, c: string) {
    && c in s.db.clients && (forall u :: u in s.db.clients[c] ==> Registration(c, u) in s.registered)
    && (forall id :: id in s.threads && s.threads[id].Unknown? ==> s.threads[id].req.clientId != c)
    && (forall id, u ::
      id in s.threads && s.threads[id].Known? && s.threads[id].req.clientId == c && u in s.threads[id].uris ==>
          Registration(c, u) in s.registered)
  }

  /** The database answers the event's lookup of the client, if it is one. */
  predicate AnswersLookup(s: State, e: Event, c: string) {
    e.Run? && e.id in s.threads && s.threads[e.id].Asked? && s.threads[e.id].req.clientId == c ==> e.up
  }

  lemma StepKeepsOwnUris(s: State, e: Event, c: string)
    requires OwnUris(s, c) && AnswersLookup(s, e, c)
    ensures OwnUris(Step(s, e), c) && s.registered <= Step(s, e).registered
    ensures forall k ::
      k in Step(s, e).db.sessions && k !in s.db.sessions && Step(s, e).db.sessions[k].clientId == c ==>
      Registration(c, Step(s, e).db.sessions[k].redirectUri) in s.registered
    ensures forall k ::
      k in s.db.sessions && k in Step(s, e).db.sessions ==> Step(s, e).db.sessions[k] == s.db.sessions[k]
  {
  }

  predicate AnswersAt(events: seq<Event>, trace: seq<State>, c: string, k: nat)
    requires |trace| == |events| + 1 && k < |events|
  {
    AnswersLookup(trace[k], events[k], c)
  }

  /** Once a client's URIs are its own, and as long as its lookups are answered, every session started for
      it redirects to a URI it registered itself. */
  lemma {:induction false} OwnSessionsStayOwn(events: seq<Event>, trace: seq<State>, c: string, i: nat, j: nat,
      k: string)
    requires IsRun(events, trace) && i <= j <= |events| && OwnUris(trace[i], c)
    requires forall m: nat {:trigger AnswersAt(events, trace, c, m)} :: i <= m < j ==> AnswersAt(events, trace, c, m)
    ensures OwnUris(trace[j], c)
    ensures k in trace[j].db.sessions && k !in trace[i].db.sessions && trace[j].db.sessions[k].clientId == c ==>
      Registration(c, trace[j].db.sessions[k].redirectUri) in trace[j].registered
    decreases j
  {
    if i < j {
      hide OwnUris, AnswersLookup, Step;
      OwnSessionsStayOwn(events, trace, c, i, j - 1, k);
      assert AnswersAt(events, trace, c, j - 1) && Goes(events, trace, j - 1);
      StepKeepsOwnUris(trace[j - 1], events[j - 1], c);
    }
  }

  /** A request served without interruption: its lookup, the registration on the auto-register branch,
      and its session. */
  function Served(s: State, id: nat, found: bool, registered: bool, saved: bool, drawn: string): State
    requires id in s.threads
  {
    var looked := Step(s, Run(id, found, drawn));
    var known := if id in looked.threads && looked.threads[id].Unknown? then Step(looked, Run(id, registered, drawn))
      else looked;
    Step(known, Run(id, saved, drawn))
  }

  /** A request served alone starts a session outside the URIs its client registered itself exactly when
      its URI is not one of those, and the lookup fails, or the client has no row, or its row has the URI
      from an earlier request. */
  lemma SessionOutsideExactly(s: State, id: nat, req: Request, found: bool, drawn: string)
    requires id in s.threads && s.threads[id] == Asked(req) && drawn !in s.db.sessions
    ensures var s' := Served(s, id, found, true, true, drawn);
      (drawn in s'.db.sessions && Registration(req.clientId, s'.db.sessions[drawn].redirectUri) !in s'.registered) <==>
        && Registration(req.clientId, req.redirectUri) !in s.registered
        && (!found || req.clientId !in s.db.clients || req.redirectUri in s.db.clients[req.clientId])
  {
    var looked := Step(s, Run(id, found, drawn));
    if found && req.clientId in s.db.clients {
      assert looked.threads[id] == Known(req, s.db.clients[req.clientId]);
    } else {
      assert looked.threads[id] == Unknown(req);
      assert Step(looked, Run(id, true, drawn)).threads[id] == Known(req, [req.redirectUri]);
    }
  }

  // ----- And still is, unless a row was overwritten ---------------------------------------------

  /** Every session's redirect URI is in its client's row now, and so is that of a request about to start
      a session. */
  ghost predicate StillRegistered(s: State) {
    && (forall k :: k in s.db.sessions ==> InRow(s, s.db.sessions[k].clientId, s.db.sessions[k].redirectUri))
    && (forall id ::
      id in s.threads && InHand(s.threads[id]) ==> InRow(s, s.threads[id].req.clientId, s.threads[id].req.redirectUri))
  }

  /** A request that has passed its lookup and whose redirect URI is among those it found. */
  predicate InHand(th: Thread) {
    th.Known? && th.req.redirectUri in th.uris
  }

  predicate InRow(s: State, clientId: string, uri: string) {
    clientId in s.db.clients && uri in s.db.clients[clientId]
  }

  /** The event writes no client row that is already there. */
  predicate NewRowsOnly(s: State, e: Event) {
    match e
    case Register(clientId, _, _) => clientId !in s.db.clients
    case Finish(_, _) => true
    case Arrive(_, _) => true
    case Run(id, _, _) => id in s.threads && s.threads[id].Unknown? ==> s.threads[id].req.clientId !in s.db.clients
  }

  lemma NewRowsKeepRegistered(s: State, e: Event)
    requires StillRegistered(s) && NewRowsOnly(s, e)
    ensures StillRegistered(Step(s, e))
  {
  }

  predicate NewRowsAt(events: seq<Event>, trace: seq<State>, k: nat)
    requires |trace| == |events| + 1 && k < |events|
  {
    NewRowsOnly(trace[k], events[k])
  }

  ghost predicate NewRowsRun(events: seq<Event>, trace: seq<State>)
    requires |trace| == |events| + 1
  {
    forall k: nat {:trigger NewRowsAt(events, trace, k)} :: k < |events| ==> NewRowsAt(events, trace, k)
  }

  lemma {:induction false} NewRowsRunKeeps(events: seq<Event>, trace: seq<State>, i: nat)
    requires IsRun(events, trace) && NewRowsRun(events, trace) && i <= |events|
    ensures StillRegistered(trace[i])
  {
    if i > 0 {
      hide StillRegistered, Step, NewRowsOnly;
      NewRowsRunKeeps(events, trace, i - 1);
      assert Goes(events, trace, i - 1) && NewRowsAt(events, trace, i - 1);
      NewRowsKeepRegistered(trace[i - 1], events[i - 1]);
    }
  }

  /** Over every run that overwrites no client row, every session's redirect URI is, at any time, one
      its client has registered then. */
  lemma SessionsStayRegistered(events: seq<Event>, trace: seq<State>, i: nat, k: string)
    requires IsRun(events, trace) && NewRowsRun(events, trace) && i <= |events| && k in trace[i].db.sessions
    ensures InRow(trace[i], trace[i].db.sessions[k].clientId, trace[i].db.sessions[k].redirectUri)
  {
    NewRowsRunKeeps(events, trace, i);
  }

  /** Auto-registration overwrites the row of a client that is there, when its lookup failed or another
      request registered the client first: the sessions, and those about to start, stay registered exactly
      when each of that client has the overwriting request's redirect URI. */
  lemma OverwriteKeepsRegisteredExactly(s: State, id: nat, drawn: string)
    requires StillRegistered(s) && id in s.threads && s.threads[id].Unknown?
    ensures var req := s.threads[id].req;
      StillRegistered(Step(s, Run(id, true, drawn))) <==>
        && (forall k ::
          k in s.db.sessions && s.db.sessions[k].clientId == req.clientId ==>
            s.db.sessions[k].redirectUri == req.redirectUri)
        && (forall j :: j in s.threads && InHand(s.threads[j]) && s.threads[j].req.clientId == req.clientId ==>
              s.threads[j].req.redirectUri == req.redirectUri)
  {
    var req := s.threads[id].req;
    var s' := Step(s, Run(id, true, drawn));
    assert s'.db.sessions == s.db.sessions && s'.db.clients == s.db.clients[req.clientId := [req.redirectUri]];
    if StillRegistered(s') {
      forall k | k in s.db.sessions && s.db.sessions[k].clientId == req.clientId
        ensures s.db.sessions[k].redirectUri == req.redirectUri
      {
        assert InRow(s', s'.db.sessions[k].clientId, s'.db.sessions[k].redirectUri);
      }
      forall j | j in s.threads && InHand(s.threads[j]) && s.threads[j].req.clientId == req.clientId
        ensures s.threads[j].req.redirectUri == req.redirectUri
      {
        assert s'.threads[j] == s.threads[j];
      }
    } else {
      assert forall k :: k in s.db.sessions ==> InRow(s, s.db.sessions[k].clientId, s.db.sessions[k].redirectUri);
    }
  }

  // ----- Exactly when every session is registered now -------------------------------------------

  ghost predicate SessionsRegistered(s: State) {
    forall k :: k in s.db.sessions ==> InRow(s, s.db.sessions[k].clientId, s.db.sessions[k].redirectUri)
  }

  /** Some session of the client redirects elsewhere. */
  ghost predicate LosesSession(s: State, clientId: string, uris: seq<string>) {
    exists k :: k in s.db.sessions && s.db.sessions[k].clientId == clientId && s.db.sessions[k].redirectUri !in uris
  }

  /** The event writes a row without the URI of a session of its client, or starts a session whose URI has
      gone from its client's row since the lookup.  (HandleRegister draws a fresh client id, so its own
      case cannot arise: FreshRegistrationStrandsNone.) */
  ghost predicate Strands(s: State, e: Event) {
    match e
    case Register(clientId, uris, up) => up && uris != [] && LosesSession(s, clientId, uris)
    case Finish(_, _) => false
    case Arrive(_, _) => false
    case Run(id, up, drawn) =>
      && id in s.threads && up
      && var th := s.threads[id];
      || (th.Unknown? && LosesSession(s, th.req.clientId, [th.req.redirectUri]))
      || (InHand(th) && drawn !in s.db.sessions && !InRow(s, th.req.clientId, th.req.redirectUri))
  }

  lemma RowWritten(s: State, s': State, clientId: string, uris: seq<string>)
    requires SessionsRegistered(s) && s'.db.sessions == s.db.sessions && s'.db.clients == s.db.clients[clientId := uris]
    ensures SessionsRegistered(s') <==> !LosesSession(s, clientId, uris)
  {
    if LosesSession(s, clientId, uris) {
      var k :| k in s.db.sessions && s.db.sessions[k].clientId == clientId && s.db.sessions[k].redirectUri !in uris;
      assert !InRow(s', s'.db.sessions[k].clientId, s'.db.sessions[k].redirectUri);
    } else {
      assert forall k :: k in s.db.sessions ==> InRow(s, s.db.sessions[k].clientId, s.db.sessions[k].redirectUri);
    }
  }

  lemma SessionSaved(s: State, s': State, drawn: string, sess: Session)
    requires SessionsRegistered(s) && drawn !in s.db.sessions
    requires s'.db.clients == s.db.clients && s'.db.sessions == s.db.sessions[drawn := sess]
    ensures SessionsRegistered(s') <==> InRow(s, sess.clientId, sess.redirectUri)
  {
    assert s'.db.sessions[drawn] == sess;
    assert forall k :: k in s.db.sessions ==> InRow(s, s.db.sessions[k].clientId, s.db.sessions[k].redirectUri);
  }

  lemma StepKeepsSessionsRegisteredExactly(s: State, e: Event)
    requires SessionsRegistered(s)
    ensures SessionsRegistered(Step(s, e)) <==> !Strands(s, e)
  {
    hide LosesSession;
    var s' := Step(s, e);
    if s'.db == s.db {
      assert forall k :: k in s.db.sessions ==> InRow(s, s.db.sessions[k].clientId, s.db.sessions[k].redirectUri);
    }
    match e
    case Register(clientId, uris, up) =>
      if up && uris != [] {
        RowWritten(s, s', clientId, uris);
      }
    case Finish(session, up) =>
      if up {
        assert forall k :: k in s'.db.sessions ==> k in s.db.sessions && s'.db.sessions[k] == s.db.sessions[k];
        assert forall k :: k in s.db.sessions ==> InRow(s, s.db.sessions[k].clientId, s.db.sessions[k].redirectUri);
      }
    case Arrive(_, _) =>
    case Run(id, up, drawn) =>
      if id in s.threads && up {
        var th := s.threads[id];
        if th.Unknown? {
          RowWritten(s, s', th.req.clientId, [th.req.redirectUri]);
        } else if InHand(th) && drawn !in s.db.sessions {
          SessionSaved(s, s', drawn, SessionOf(th.req));
        }
      }
  }

  /** A registration under a client id not there before strands no session. */
  lemma FreshRegistrationStrandsNone(s: State, e: Event)
    requires SessionsRegistered(s) && e.Register? && e.clientId !in s.db.clients
    ensures !Strands(s, e)
  {
    assert forall k :: k in s.db.sessions ==> InRow(s, s.db.sessions[k].clientId, s.db.sessions[k].redirectUri);
  }

  ghost predicate RegisteredAt(trace: seq<State>, k: nat)
    requires k < |trace|
  {
    SessionsRegistered(trace[k])
  }

  ghost predicate StrandsAt(events: seq<Event>, trace: seq<State>, k: nat)
    requires |trace| == |events| + 1 && k < |events|
  {
    Strands(trace[k], events[k])
  }

  lemma {:induction false} UnstrandedRun(events: seq<Event>, trace: seq<State>, k: nat)
    requires IsRun(events, trace) && k <= |events|
    requires forall i: nat :: i < |events| ==> !StrandsAt(events, trace, i)
    ensures RegisteredAt(trace, k)
  {
    if k > 0 {
      hide Step, SessionsRegistered, Strands;
      UnstrandedRun(events, trace, k - 1);
      assert Goes(events, trace, k - 1) && !StrandsAt(events, trace, k - 1) && RegisteredAt(trace, k - 1);
      StepKeepsSessionsRegisteredExactly(trace[k - 1], events[k - 1]);
    }
  }

  /** Over every run, every session's redirect URI is registered for its client all along exactly when no
      event writes a row that leaves a session of its client out, or starts a session whose URI has gone
      from the row. */
  lemma SessionsRegisteredExactly(events: seq<Event>, trace: seq<State>)
    requires IsRun(events, trace)
    ensures (forall k: nat :: k <= |events| ==> RegisteredAt(trace, k))
       <==> (forall k: nat :: k < |events| ==> !StrandsAt(events, trace, k))
  {
    hide Step, SessionsRegistered, Strands;
    if forall k: nat :: k < |events| ==> !StrandsAt(events, trace, k) {
      forall k: nat | k <= |events| ensures RegisteredAt(trace, k) {
        UnstrandedRun(events, trace, k);
      }
    } else {
      var k: nat :| k < |events| && StrandsAt(events, trace, k);
      assert Goes(events, trace, k);
      if RegisteredAt(trace, k) {
        StepKeepsSessionsRegisteredExactly(trace[k], events[k]);
        assert !RegisteredAt(trace, k + 1);
      }
    }
  }

  /** One failed lookup is enough: a client registered with other URIs loses them all to the one of the
      request. */
  lemma FailedLookupReplacesRow(s: State, id: nat, req: Request)
    requires id !in s.threads && req.clientId in s.db.clients
    ensures var s' := RunAll(s, [Arrive(id, req), Run(id, false, ""), Run(id, true, "")]);
      s'.db.clients == s.db.clients[req.clientId := [req.redirectUri]] && id in s'.threads
        && s'.threads[id] == Known(req, [req.redirectUri])
  {
    var e0, e1, e2 := Arrive(id, req), Run(id, false, ""), Run(id, true, "");
    assert [e0, e1, e2][..2] == [e0, e1] && [e0, e1][..1] == [e0] && [e0][..0] == [];
    assert RunAll(s, [e0]) == Step(s, e0);
    assert RunAll(s, [e0, e1]) == Step(Step(s, e0), e1);
  }

  /** A run that strands a session: c registers "a", a request for "a" starts session "s", and a request
      for "b" whose lookup fails registers c anew. */
  function StrandingEvents(): seq<Event> {
    var (a, b) := (Request("c", "a", "h", "p"), Request("c", "b", "h", "p"));
    [Register("c", ["a"], true), Arrive(0, a), Run(0, true, "s"), Run(0, true, "s"),
     Arrive(1, b), Run(1, false, "t"), Run(1, true, "t")]
  }

  lemma StrandingRun() returns (trace: seq<State>)
    ensures IsRun(StrandingEvents(), trace)
    ensures "s" in trace[7].db.sessions && trace[7].db.sessions["s"].redirectUri == "a"
    ensures !SessionsRegistered(trace[7])
  {
    var es := StrandingEvents();
    var s1 := Step(INITIAL, es[0]);
    var s2 := Step(s1, es[1]);
    var s3 := Step(s2, es[2]);
    var s4 := Step(s3, es[3]);
    var s5 := Step(s4, es[4]);
    var s6 := Step(s5, es[5]);
    var s7 := Step(s6, es[6]);
    trace := [INITIAL, s1, s2, s3, s4, s5, s6, s7];
    assert s4.db == Db(map["c" := ["a"]], map["s" := Session("c", "a", "h", "p")]);
    assert s7.db.clients["c"] == ["b"] && s7.db.sessions == s4.db.sessions;
    assert !InRow(s7, "c", "a");
  }

  // ----- The handler ---------------------------------------------------------------------------

  class Registry {
    var db: Db

    method GetClient(clientId: string, up: bool) returns (r: Result<seq<string>>)
      ensures r == if !up then Failed else if clientId in db.clients then Ok(db.clients[clientId]) else NotFound
    {
      if !up {
        return Failed;
      }
      if clientId !in db.clients {
        return NotFound;
      }
      return Ok(db.clients[clientId]);
    }

    method PutClient(clientId: string, uris: seq<string>, up: bool) returns (r: Result<()>)
      modifies this
      ensures r.Ok? <==> up
      ensures db == if up then old(db).(clients := old(db).clients[clientId := uris]) else old(db)
    {
      if !up {
        return Failed;
      }
      db := db.(clients := db.clients[clientId := uris]);
      return Ok(());
    }

    /** HandleRegister, with the client id it draws: no redirect URI, no registration. */
    method HandleRegister(clientId: string, uris: seq<string>, up: bool) returns (ok: bool)
      modifies this
      ensures ok <==> up && uris != []
      ensures db == if ok then old(db).(clients := old(db).clients[clientId := uris]) else old(db)
      ensures db == Step(State(old(db), map[], {}, {}), Register(clientId, uris, up)).db
    {
      if |uris| == 0 {
        return false;
      }
      var r := PutClient(clientId, uris, up);
      return r.Ok?;
    }

    /** createAuthSession: its end is that of the uninterrupted thread, whose second statement runs only
        on the auto-register branch.  A session starts exactly when the redirect URI is one of the client's,
        or the client is found unknown and can be registered with it. */
    method CreateAuthSession(req: Request, found: bool, registered: bool, saved: bool, drawn: string)
      returns (end: Thread)
      modifies this
      ensures var s := Served(Alone(old(db), req), 0, found, registered, saved, drawn);
        db == s.db && s.threads == map[0 := end]
      ensures var (c, t) := (req.clientId, old(db));
        var known := found && c in t.clients;
        var starts := (if known then req.redirectUri in t.clients[c] else registered) && saved && drawn !in t.sessions;
        && db.clients == (if known || !registered then t.clients else t.clients[c := [req.redirectUri]])
        && db.sessions == (if !starts then t.sessions else t.sessions[drawn :=
          Session(c, req.redirectUri, req.challenge, if req.scope == "" then "satellites" else req.scope)])
        && end == if starts then Started(drawn) else Refused
    {
      LookUpAlone(db, req, found, drawn);
      var client := GetClient(req.clientId, found);
      var uris: seq<string>;
      if client.Ok? {
        uris := client.value;
      } else {
        var r := PutClient(req.clientId, [req.redirectUri], registered);
        if !r.Ok? {
          return Refused;
        }
        uris := [req.redirectUri];
      }
      if req.redirectUri !in uris {
        return Refused;
      }
      var scope := req.scope;
      if scope == "" {
        scope := DEFAULT_SCOPE;
      }
      if !saved || drawn in db.sessions {
        return Refused;
      }
      db := db.(sessions := db.sessions[drawn := Session(req.clientId, req.redirectUri, req.challenge, scope)]);
      return Started(drawn);
    }
  }

  /** A request alone on the tables. */
  function Alone(db: Db, req: Request): State {
    State(db, map[0 := Asked(req)], {}, {})
  }

  lemma LookUpAlone(db: Db, req: Request, found: bool, drawn: string)
    ensures Step(Alone(db, req), Run(0, found, drawn))
         == Alone(db, req).(threads :=
           map[0 := if found && req.clientId in db.clients then Known(req, db.clients[req.clientId]) else Unknown(req)])
  {
  }
}
