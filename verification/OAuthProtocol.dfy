/** The token endpoint and the end of the login flow as a protocol: any number of requests, each a
    sequence of atomic store statements, interleaved in any order (internal/auth/oauth_server.go). */
module OAuthProtocol {
  import opened OAuthStore

  /** The PKCE transform (base64url of SHA-256) and the configured lifetimes. */
  datatype Config = Config(s256: string -> string, codeTtl: int, refreshTtl: int)

  /** VerifyPKCE (section 4.6 of RFC 7636). */
  predicate VerifyPkce(cfg: Config, verifier: string, challenge: string) {
    verifier != "" && challenge != "" && cfg.s256(verifier) == challenge
  }

  datatype CodeRequest = CodeRequest(code: string, clientId: string, redirectUri: string, verifier: string)

  /** A token response: whose it is, and the refresh token it carries. */
  datatype Response = Response(userId: string, clientId: string, scope: string, refresh: string)

  /** Where one request stands: the statement it runs next, and what it has read. */
  datatype Thread =
    | CodeStart(req: CodeRequest)
    | CodeFetched(req: CodeRequest, got: Code, at: int)
    | CodeMarked(req: CodeRequest, got: Code, at: int)
    | CodeReplied(req: CodeRequest, at: int, resp: Response)
    | RefreshStart(token: string, clientId: string)
    | RefreshFetched(token: string, row: Refresh)
    | RefreshDeleted(token: string, row: Refresh)
    | RefreshReplied(token: string, resp: Response)
    | LoginStart(session: string, userId: string)
    | LoginFetched(session: string, userId: string, sess: Session)
    | LoginSaved(session: string, code: string)
    | LoginDone(session: string, code: string)
    | Refused

  /** What a stored refresh token was issued for. */
  datatype Parent = OfCode(code: string) | OfToken(token: string)

  datatype Issued = Issued(token: string, parent: Parent, userId: string, clientId: string, scope: string)

  /** The tables, the clock and the requests; and three histories: every session ever saved, the session
      each code came from, and every refresh token ever stored, in order. */
  datatype State = State(
    now: int,
    tables: Tables,
    threads: map<nat, Thread>,
    sessions: map<string, Session>,
    origin: map<string, string>,
    issued: seq<Issued>)

  const INITIAL := State(0, Tables(map[], map[], map[]), map[], map[], map[], [])

  predicate IsStart(th: Thread) {
    th.CodeStart? || th.RefreshStart? || th.LoginStart?
  }

  /** Time passes; a request arrives; an authorize request saves its session; or one request runs its
      next statement, which the database may refuse (`up`), minting may fail (`minted`), and `drawn` is
      the random value drawn if one is. */
  datatype Event =
    | Tick(dt: nat)
    | Arrive(id: nat, th: Thread)
    | Authorize(session: string, sess: Session)
    | Run(id: nat, up: bool, minted: bool, drawn: string)

  function Set(s: State, id: nat, th: Thread): State {
    s.(threads := s.threads[id := th])
  }

  /** handleAuthCodeGrant, the lookup and its four checks. */
  function FetchCode(cfg: Config, s: State, id: nat, req: CodeRequest, up: bool): State {
    if req.code == "" || req.clientId == "" || req.redirectUri == "" || req.verifier == "" then Set(s, id, Refused)
    else
      var r := CodeRow(s.tables, req.code, s.now, up);
      if !r.Ok? || r.value.clientId != req.clientId || r.value.redirectUri != req.redirectUri
         || !VerifyPkce(cfg, req.verifier, r.value.challenge)
      then Set(s, id, Refused)
      else Set(s, id, CodeFetched(req, r.value, s.now))
  }

  /** handleAuthCodeGrant, MarkCodeUsed. */
  function MarkCode(s: State, id: nat, th: Thread, up: bool): State
    requires th.CodeFetched?
  {
    if !up || !Redeemable(s.tables, th.req.code) then Set(s, id, Refused)
    else Set(s.(tables := WithCodeUsed(s.tables, th.req.code)), id, CodeMarked(th.req, th.got, th.at))
  }

  /** SaveRefreshToken, whose error both grants ignore. */
  function StoreToken(cfg: Config, s: State, token: string, parent: Parent, userId: string, clientId: string,
      scope: string, up: bool): State
  {
    if !up || token in s.tables.refresh then s
    else s.(tables :=
      s.tables.(refresh := s.tables.refresh[token := Refresh(userId, clientId, scope, s.now + cfg.refreshTtl)]),
            issued := s.issued + [Issued(token, parent, userId, clientId, scope)])
  }

  /** handleAuthCodeGrant, minting the access token, storing the refresh token and replying. */
  function ReplyCode(cfg: Config, s: State, id: nat, th: Thread, up: bool, minted: bool, drawn: string): State
    requires th.CodeMarked?
  {
    if !minted then Set(s, id, Refused)
    else
      var g := th.got;
      Set(StoreToken(cfg, s, drawn, OfCode(th.req.code), g.userId, g.clientId, g.scope, up), id,
          CodeReplied(th.req, th.at, Response(g.userId, g.clientId, g.scope, drawn)))
  }

  /** handleRefreshTokenGrant, the lookup and its check. */
  function FetchRefresh(s: State, id: nat, th: Thread, up: bool): State
    requires th.RefreshStart?
  {
    var r := RefreshRow(s.tables, th.token, s.now, up);
    if th.token == "" || th.clientId == "" || !r.Ok? || r.value.clientId != th.clientId then Set(s, id, Refused)
    else Set(s, id, RefreshFetched(th.token, r.value))
  }

  /** handleRefreshTokenGrant, DeleteRefreshToken, whose error and row count it ignores. */
  function DeleteOld(s: State, id: nat, th: Thread, up: bool): State
    requires th.RefreshFetched?
  {
    var t := if up then s.tables.(refresh := s.tables.refresh - {th.token}) else s.tables;
    Set(s.(tables := t), id, RefreshDeleted(th.token, th.row))
  }

  function ReplyRefresh(cfg: Config, s: State, id: nat, th: Thread, up: bool, minted: bool, drawn: string): State
    requires th.RefreshDeleted?
  {
    if !minted then Set(s, id, Refused)
    else
      var g := th.row;
      Set(StoreToken(cfg, s, drawn, OfToken(th.token), g.userId, g.clientId, g.scope, up), id,
          RefreshReplied(th.token, Response(g.userId, g.clientId, g.scope, drawn)))
  }

  /** CompleteAuthorization, one statement at a time. */
  function FetchSession(s: State, id: nat, th: Thread, up: bool): State
    requires th.LoginStart?
  {
    var r := SessionRow(s.tables, th.session, up);
    Set(s, id, if r.Ok? then LoginFetched(th.session, th.userId, r.value) else Refused)
  }

  function SaveLoginCode(cfg: Config, s: State, id: nat, th: Thread, up: bool, drawn: string): State
    requires th.LoginFetched?
  {
    if !up || drawn in s.tables.codes then Set(s, id, Refused)
    else
      var row :=
        Code(th.sess.clientId, th.userId, th.sess.redirectUri, th.sess.challenge, th.sess.scope, s.now + cfg.codeTtl,
          false);
      Set(s.(tables := s.tables.(codes := s.tables.codes[drawn := row]), origin := s.origin[drawn := th.session]), id,
          LoginSaved(th.session, drawn))
  }

  function DropSession(s: State, id: nat, th: Thread, up: bool): State
    requires th.LoginSaved?
  {
    var t := if up then s.tables.(sessions := s.tables.sessions - {th.session}) else s.tables;
    Set(s.(tables := t), id, LoginDone(th.session, th.code))
  }

  /** One statement of one request. */
  function RunThread(cfg: Config, s: State, id: nat, th: Thread, up: bool, minted: bool, drawn: string): State {
    match th
    case CodeStart(req) => FetchCode(cfg, s, id, req, up)
    case CodeFetched(_, _, _) => MarkCode(s, id, th, up)
    case CodeMarked(_, _, _) => ReplyCode(cfg, s, id, th, up, minted, drawn)
    case RefreshStart(_, _) => FetchRefresh(s, id, th, up)
    case RefreshFetched(_, _) => DeleteOld(s, id, th, up)
    case RefreshDeleted(_, _) => ReplyRefresh(cfg, s, id, th, up, minted, drawn)
    case LoginStart(_, _) => FetchSession(s, id, th, up)
    case LoginFetched(_, _, _) => SaveLoginCode(cfg, s, id, th, up, drawn)
    case LoginSaved(_, _) => DropSession(s, id, th, up)
    case CodeReplied(_, _, _) => s
    case RefreshReplied(_, _) => s
    case LoginDone(_, _) => s
    case Refused => s
  }

  /** One event; events that name no request, or an id in use, change nothing.  A session id drawn again
      is one in use, also when its row is gone: random session ids are taken not to repeat. */
  function Step(cfg: Config, s: State, e: Event): State {
    match e
    case Tick(dt) => s.(now := s.now + dt)
    case Arrive(id, th) => if id in s.threads || !IsStart(th) then s else Set(s, id, th)
    case Authorize(id, sess) =>
      if id in s.sessions then s
      else s.(tables := s.tables.(sessions := s.tables.sessions[id := sess]), sessions := s.sessions[id := sess])
    case Run(id, up, minted, drawn) =>
      if id in s.threads then RunThread(cfg, s, id, s.threads[id], up, minted, drawn) else s
  }

  /** Random refresh tokens do not repeat.  (Codes need no such assumption: the primary key refuses a
      repeated code, and codes are never deleted.) */
  predicate FreshToken(s: State, e: Event) {
    e.Run? ==> forall i :: 0 <= i < |s.issued| ==> s.issued[i].token != e.drawn
  }

  /** The state after some events. */
  function RunAll(cfg: Config, s: State, events: seq<Event>): State
    decreases |events|
  {
    if events == [] then s else Step(cfg, RunAll(cfg, s, events[..|events| - 1]), events[|events| - 1])
  }

  /** Event k takes state k of the trace to the next, drawing no token drawn before. */
  predicate Goes(cfg: Config, events: seq<Event>, trace: seq<State>, k: nat)
    requires |trace| == |events| + 1 && k < |events|
  {
    FreshToken(trace[k], events[k]) && trace[k + 1] == Step(cfg, trace[k], events[k])
  }

  /** A run from the empty tables: its events and the states they go through. */
  ghost predicate IsRun(cfg: Config, events: seq<Event>, trace: seq<State>) {
    && |trace| == |events| + 1 && trace[0] == INITIAL
    && forall k: nat {:trigger Goes(cfg, events, trace, k)} :: k < |events| ==> Goes(cfg, events, trace, k)
  }

  lemma {:induction false} TraceIsRunAll(cfg: Config, events: seq<Event>, trace: seq<State>, k: nat)
    requires IsRun(cfg, events, trace) && k <= |events|
    ensures trace[k] == RunAll(cfg, INITIAL, events[..k])
  {
    hide Step, FreshToken;
    if k > 0 {
      TraceIsRunAll(cfg, events, trace, k - 1);
      assert Goes(cfg, events, trace, k - 1);
      assert events[..k][..k - 1] == events[..k - 1];
    }
  }

  // ----- The invariant -------------------------------------------------------------------------

  predicate SameButUsed(a: Code, b: Code) {
    a.(used := true) == b.(used := true)
  }

  /** The request named the code's client and redirect URI and proved its challenge, at a time the code
      had not expired (section 4.1.3 of RFC 6749, section 4.6 of RFC 7636). */
  predicate Matched(cfg: Config, req: CodeRequest, c: Code, at: int) {
    c.clientId == req.clientId && c.redirectUri == req.redirectUri && VerifyPkce(cfg, req.verifier, c.challenge)
      && at <= c.expiresAt
  }

  predicate IsIssued(issued: seq<Issued>, j: int, token: string, userId: string, clientId: string, scope: string) {
    && 0 <= j < |issued|
    && issued[j].token == token && issued[j].userId == userId && issued[j].clientId == clientId
    && issued[j].scope == scope
  }

  /** The token was stored, for this user, client and scope. */
  ghost predicate WasIssued(issued: seq<Issued>, token: string, userId: string, clientId: string, scope: string) {
    exists j :: IsIssued(issued, j, token, userId, clientId, scope)
  }

  predicate GrantedBy(c: Code, userId: string, clientId: string, scope: string) {
    c.userId == userId && c.clientId == clientId && c.scope == scope
  }

  /** The code has been marked used. */
  predicate Used(s: State, code: string) {
    code in s.tables.codes && s.tables.codes[code].used
  }

  /** What a request has read is still so, and what it replied is the code's own grant. */
  ghost predicate ThreadOk(cfg: Config, s: State, th: Thread) {
    match th
    case CodeFetched(req, got, at) =>
      at <= s.now && req.code in s.tables.codes && SameButUsed(got, s.tables.codes[req.code])
        && Matched(cfg, req, got, at)
    case CodeMarked(req, got, at) =>
      at <= s.now && Used(s, req.code) && SameButUsed(got, s.tables.codes[req.code]) && Matched(cfg, req, got, at)
    case CodeReplied(req, at, resp) =>
      at <= s.now && Used(s, req.code) && Matched(cfg, req, s.tables.codes[req.code], at)
      && GrantedBy(s.tables.codes[req.code], resp.userId, resp.clientId, resp.scope)
    case RefreshFetched(token, row) => WasIssued(s.issued, token, row.userId, row.clientId, row.scope)
    case RefreshDeleted(token, row) => WasIssued(s.issued, token, row.userId, row.clientId, row.scope)
    case RefreshReplied(token, resp) => WasIssued(s.issued, token, resp.userId, resp.clientId, resp.scope)
    case LoginFetched(session, _, sess) => session in s.sessions && s.sessions[session] == sess
    case _ => true
  }

  /** The request has taken the code: marked it, or answered for it. */
  predicate Redeems(th: Thread, code: string) {
    (th.CodeMarked? || th.CodeReplied?) && th.req.code == code
  }

  ghost predicate OneRedeemer(threads: map<nat, Thread>) {
    forall i, j, code ::
      i in threads && j in threads && Redeems(threads[i], code) && Redeems(threads[j], code) ==> i == j
  }

  ghost predicate ThreadsOk(cfg: Config, s: State) {
    forall id :: id in s.threads ==> ThreadOk(cfg, s, s.threads[id])
  }

  /** A code carries its session's client, redirect URI, challenge and scope. */
  predicate OfSession(c: Code, sess: Session) {
    c.clientId == sess.clientId && c.redirectUri == sess.redirectUri && c.challenge == sess.challenge
      && c.scope == sess.scope
  }

  ghost predicate CodesOk(s: State) {
    && (forall id :: id in s.tables.sessions ==> id in s.sessions && s.sessions[id] == s.tables.sessions[id])
    && (forall c :: c in s.tables.codes ==>
          c in s.origin && s.origin[c] in s.sessions && OfSession(s.tables.codes[c], s.sessions[s.origin[c]]))
  }

  /** Entry i of the log descends from a used code, or from an earlier entry, and has its grant. */
  ghost predicate EntryOk(s: State, i: nat)
    requires i < |s.issued|
  {
    var e := s.issued[i];
    match e.parent
    case OfCode(c) => Used(s, c) && GrantedBy(s.tables.codes[c], e.userId, e.clientId, e.scope)
    case OfToken(o) => WasIssued(s.issued[..i], o, e.userId, e.clientId, e.scope)
  }

  ghost predicate LogOk(s: State) {
    && (forall i :: 0 <= i < |s.issued| ==> EntryOk(s, i))
    && (forall i, j :: 0 <= i < j < |s.issued| ==> s.issued[i].token != s.issued[j].token)
    && (forall t :: t in s.tables.refresh ==>
          var r := s.tables.refresh[t]; WasIssued(s.issued, t, r.userId, r.clientId, r.scope))
  }

  /** A code roots at most one token, and none while the request that marked it has not replied. */
  ghost predicate RootsOk(s: State) {
    && (forall i, j ::
      0 <= i < j < |s.issued| && s.issued[i].parent.OfCode? ==> s.issued[i].parent != s.issued[j].parent)
    && (forall i, id :: 0 <= i < |s.issued| && id in s.threads && s.threads[id].CodeMarked? ==>
          s.issued[i].parent != OfCode(s.threads[id].req.code))
  }

  ghost predicate Inv(cfg: Config, s: State) {
    ThreadsOk(cfg, s) && OneRedeemer(s.threads) && CodesOk(s) && LogOk(s) && RootsOk(s)
  }

  /** Nothing a request may have relied on is taken back. */
  ghost predicate Grows(s: State, s': State) {
    && s.now <= s'.now
    && s.issued <= s'.issued
    && (forall c :: c in s.tables.codes ==>
          c in s'.tables.codes && SameButUsed(s.tables.codes[c], s'.tables.codes[c])
            && (s.tables.codes[c].used ==> s'.tables.codes[c].used))
    && (forall id :: id in s.sessions ==> id in s'.sessions && s'.sessions[id] == s.sessions[id])
  }

  lemma IssuedGrows(a: seq<Issued>, b: seq<Issued>, token: string, userId: string, clientId: string, scope: string)
    requires a <= b && WasIssued(a, token, userId, clientId, scope)
    ensures WasIssued(b, token, userId, clientId, scope)
  {
    var j :| IsIssued(a, j, token, userId, clientId, scope);
    assert IsIssued(b, j, token, userId, clientId, scope);
  }

  lemma ThreadStaysOk(cfg: Config, s: State, s': State, th: Thread)
    requires Grows(s, s') && ThreadOk(cfg, s, th)
    ensures ThreadOk(cfg, s', th)
  {
    hide WasIssued, VerifyPkce;
    match th
    case RefreshFetched(t, row) => IssuedGrows(s.issued, s'.issued, t, row.userId, row.clientId, row.scope);
    case RefreshDeleted(t, row) => IssuedGrows(s.issued, s'.issued, t, row.userId, row.clientId, row.scope);
    case RefreshReplied(t, resp) => IssuedGrows(s.issued, s'.issued, t, resp.userId, resp.clientId, resp.scope);
    case _ =>
  }

  /** One request moved; every other request stays right, and no code gets a second redeemer. */
  lemma ThreadsKept(cfg: Config, s: State, s': State, id: nat, th: Thread)
    requires ThreadsOk(cfg, s) && OneRedeemer(s.threads) && Grows(s, s')
    requires s'.threads == s.threads[id := th] && ThreadOk(cfg, s', th)
    requires forall j, code :: j in s.threads && j != id && Redeems(th, code) ==> !Redeems(s.threads[j], code)
    ensures ThreadsOk(cfg, s') && OneRedeemer(s'.threads)
  {
    hide ThreadOk, Grows, Redeems;
    forall j | j in s'.threads ensures ThreadOk(cfg, s', s'.threads[j]) {
      if j != id {
        ThreadStaysOk(cfg, s, s', s.threads[j]);
      }
    }
  }

  lemma EntryStaysOk(s: State, s': State, i: nat)
    requires Grows(s, s') && i < |s.issued| && EntryOk(s, i)
    ensures EntryOk(s', i)
  {
    hide WasIssued;
    assert s'.issued[..i] == s.issued[..i];
  }

  /** The log is unchanged, and no token was added to the table. */
  lemma LogKept(s: State, s': State)
    requires LogOk(s) && Grows(s, s') && s'.issued == s.issued
    requires forall t :: t in s'.tables.refresh ==> t in s.tables.refresh && s'.tables.refresh[t] == s.tables.refresh[t]
    ensures LogOk(s')
  {
    hide EntryOk, Grows, WasIssued;
    forall i | 0 <= i < |s.issued| ensures EntryOk(s', i) {
      EntryStaysOk(s, s', i);
    }
  }

  /** A step that touches neither codes, tokens nor sessions. */
  lemma QuietStep(cfg: Config, s: State, s': State, id: nat, th: Thread)
    requires Inv(cfg, s)
    requires s' == Set(s, id, th) && ThreadOk(cfg, s', th) && !th.CodeMarked? && !th.CodeReplied?
    ensures Inv(cfg, s')
  {
    hide ThreadOk, LogOk, CodesOk, ThreadsOk, OneRedeemer;
    ThreadsKept(cfg, s, s', id, th);
    assert LogOk(s') by { LogKept(s, s'); }
    assert CodesOk(s') by { hide *; SameCodesOk(s, s'); }
  }

  lemma SameCodesOk(s: State, s': State)
    requires CodesOk(s) && s'.tables == s.tables && s'.sessions == s.sessions && s'.origin == s.origin
    ensures CodesOk(s')
  {
  }

  lemma FetchCodeKeeps(cfg: Config, s: State, id: nat, req: CodeRequest, up: bool)
    requires Inv(cfg, s)
    ensures Inv(cfg, FetchCode(cfg, s, id, req, up))
  {
    hide Inv, VerifyPkce;
    var s' := FetchCode(cfg, s, id, req, up);
    QuietStep(cfg, s, s', id, s'.threads[id]);
  }

  lemma FetchRefreshKeeps(cfg: Config, s: State, id: nat, th: Thread, up: bool)
    requires Inv(cfg, s) && th.RefreshStart?
    ensures Inv(cfg, FetchRefresh(s, id, th, up))
  {
    hide ThreadsOk, OneRedeemer, CodesOk, RootsOk;
    var s' := FetchRefresh(s, id, th, up);
    QuietStep(cfg, s, s', id, s'.threads[id]);
  }

  lemma FetchSessionKeeps(cfg: Config, s: State, id: nat, th: Thread, up: bool)
    requires Inv(cfg, s) && th.LoginStart?
    ensures Inv(cfg, FetchSession(s, id, th, up))
  {
    hide ThreadsOk, OneRedeemer, LogOk, RootsOk;
    var s' := FetchSession(s, id, th, up);
    QuietStep(cfg, s, s', id, s'.threads[id]);
  }

  lemma MarkCodeKeeps(cfg: Config, s: State, id: nat, th: Thread, up: bool)
    requires Inv(cfg, s) && id in s.threads && s.threads[id] == th && th.CodeFetched?
    ensures Inv(cfg, MarkCode(s, id, th, up))
  {
    hide LogOk, CodesOk, RootsOk, VerifyPkce, OneRedeemer;
    var s' := MarkCode(s, id, th, up);
    assert ThreadOk(cfg, s, th);
    if s'.threads[id].Refused? {
      QuietStep(cfg, s, s', id, Refused);
    } else {
      forall j, code | j in s.threads && j != id && Redeems(s'.threads[id], code) ensures !Redeems(s.threads[j], code) {
        assert ThreadOk(cfg, s, s.threads[j]);
      }
      ThreadsKept(cfg, s, s', id, s'.threads[id]);
      LogKept(s, s');
      MarkKeepsCodesAndRoots(cfg, s, id, th);
    }
  }

  lemma MarkKeepsCodesAndRoots(cfg: Config, s: State, id: nat, th: Thread)
    requires Inv(cfg, s) && th.CodeFetched? && Redeemable(s.tables, th.req.code)
    ensures CodesOk(MarkCode(s, id, th, true)) && RootsOk(MarkCode(s, id, th, true))
  {
    hide ThreadsOk, OneRedeemer, WasIssued;
    forall i | 0 <= i < |s.issued| ensures s.issued[i].parent != OfCode(th.req.code) {
      assert EntryOk(s, i);
    }
  }

  /** The parent is a used code, or a stored token, with this grant. */
  ghost predicate ParentGrants(s: State, parent: Parent, userId: string, clientId: string, scope: string) {
    match parent
    case OfCode(c) => Used(s, c) && GrantedBy(s.tables.codes[c], userId, clientId, scope)
    case OfToken(o) => WasIssued(s.issued, o, userId, clientId, scope)
  }

  /** Storing a refresh token keeps the log right, given a right parent and a token not seen before. */
  lemma StoreKeepsLog(cfg: Config, s: State, token: string, parent: Parent, userId: string, clientId: string,
      scope: string, up: bool)
    requires LogOk(s)
    requires forall i :: 0 <= i < |s.issued| ==> s.issued[i].token != token
    requires ParentGrants(s, parent, userId, clientId, scope)
    ensures LogOk(StoreToken(cfg, s, token, parent, userId, clientId, scope, up))
    ensures Grows(s, StoreToken(cfg, s, token, parent, userId, clientId, scope, up))
  {
    hide WasIssued;
    var s' := StoreToken(cfg, s, token, parent, userId, clientId, scope, up);
    if s' != s {
      var n := |s.issued|;
      assert s'.issued[..n] == s.issued;
      forall i | 0 <= i < n ensures EntryOk(s', i) {
        EntryStaysOk(s, s', i);
      }
      forall t | t in s'.tables.refresh
        ensures var r := s'.tables.refresh[t]; WasIssued(s'.issued, t, r.userId, r.clientId, r.scope)
      {
        var r := s'.tables.refresh[t];
        if t == token {
          LastIssued(s'.issued);
        } else {
          IssuedGrows(s.issued, s'.issued, t, r.userId, r.clientId, r.scope);
        }
      }
    }
  }

  lemma LastIssued(issued: seq<Issued>)
    requires issued != []
    ensures var e := issued[|issued| - 1]; WasIssued(issued, e.token, e.userId, e.clientId, e.scope)
  {
    var e := issued[|issued| - 1];
    assert IsIssued(issued, |issued| - 1, e.token, e.userId, e.clientId, e.scope);
  }

  lemma SetKeepsLog(s: State, id: nat, th: Thread)
    requires LogOk(s)
    ensures LogOk(Set(s, id, th))
  {
    hide WasIssued;
    var s' := Set(s, id, th);
    forall i | 0 <= i < |s.issued| ensures EntryOk(s', i) {
      assert EntryOk(s, i);
    }
  }

  lemma ReplyCodeKeeps(cfg: Config, s: State, id: nat, th: Thread, up: bool, minted: bool, drawn: string)
    requires Inv(cfg, s) && id in s.threads && s.threads[id] == th && th.CodeMarked?
    requires forall i :: 0 <= i < |s.issued| ==> s.issued[i].token != drawn
    ensures Inv(cfg, ReplyCode(cfg, s, id, th, up, minted, drawn))
  {
    hide LogOk, CodesOk, RootsOk, VerifyPkce, OneRedeemer;
    var s' := ReplyCode(cfg, s, id, th, up, minted, drawn);
    assert ThreadOk(cfg, s, th);
    if !minted {
      QuietStep(cfg, s, s', id, Refused);
    } else {
      var g := th.got;
      StoreKeepsLog(cfg, s, drawn, OfCode(th.req.code), g.userId, g.clientId, g.scope, up);
      var stored := StoreToken(cfg, s, drawn, OfCode(th.req.code), g.userId, g.clientId, g.scope, up);
      SetKeepsLog(stored, id, s'.threads[id]);
      OnlyRedeemer(s, id, th);
      ThreadsKept(cfg, s, s', id, s'.threads[id]);
      CodesKept(s, s');
      assert RootsOk(s') by { hide *; ReplyCodeRoots(cfg, s, id, th, up, drawn); }
    }
  }

  lemma OnlyRedeemer(s: State, id: nat, th: Thread)
    requires OneRedeemer(s.threads) && id in s.threads && s.threads[id] == th && (th.CodeMarked? || th.CodeReplied?)
    ensures forall j, code :: j in s.threads && j != id && Redeems(s.threads[j], code) ==> code != th.req.code
  {
    assert Redeems(s.threads[id], th.req.code);
  }

  lemma CodesKept(s: State, s': State)
    requires CodesOk(s) && s'.tables.sessions == s.tables.sessions && s'.tables.codes == s.tables.codes
    requires s'.sessions == s.sessions && s'.origin == s.origin
    ensures CodesOk(s')
  {
  }

  lemma ReplyCodeRoots(cfg: Config, s: State, id: nat, th: Thread, up: bool, drawn: string)
    requires RootsOk(s) && OneRedeemer(s.threads) && id in s.threads && s.threads[id] == th && th.CodeMarked?
    ensures RootsOk(ReplyCode(cfg, s, id, th, up, true, drawn))
  {
    OnlyRedeemer(s, id, th);
    assert forall j :: j in s.threads && s.threads[j].CodeMarked? ==> Redeems(s.threads[j], s.threads[j].req.code);
  }

  lemma DeleteOldKeeps(cfg: Config, s: State, id: nat, th: Thread, up: bool)
    requires Inv(cfg, s) && id in s.threads && s.threads[id] == th && th.RefreshFetched?
    ensures Inv(cfg, DeleteOld(s, id, th, up))
  {
    hide LogOk, CodesOk, RootsOk, WasIssued, OneRedeemer;
    var s' := DeleteOld(s, id, th, up);
    assert ThreadOk(cfg, s, th);
    ThreadsKept(cfg, s, s', id, s'.threads[id]);
    LogKept(s, s');
    CodesKept(s, s');
    assert RootsOk(s') by { hide *; RootsKept(s, s', id); }
  }

  lemma RootsKept(s: State, s': State, id: nat)
    requires RootsOk(s) && s'.issued == s.issued && id in s'.threads && !s'.threads[id].CodeMarked?
    requires s'.threads == s.threads[id := s'.threads[id]]
    ensures RootsOk(s')
  {
  }

  lemma ReplyRefreshKeeps(cfg: Config, s: State, id: nat, th: Thread, up: bool, minted: bool, drawn: string)
    requires Inv(cfg, s) && id in s.threads && s.threads[id] == th && th.RefreshDeleted?
    requires forall i :: 0 <= i < |s.issued| ==> s.issued[i].token != drawn
    ensures Inv(cfg, ReplyRefresh(cfg, s, id, th, up, minted, drawn))
  {
    hide LogOk, CodesOk, RootsOk, WasIssued, OneRedeemer;
    var s' := ReplyRefresh(cfg, s, id, th, up, minted, drawn);
    assert ThreadOk(cfg, s, th);
    if !minted {
      QuietStep(cfg, s, s', id, Refused);
    } else {
      var g := th.row;
      StoreKeepsLog(cfg, s, drawn, OfToken(th.token), g.userId, g.clientId, g.scope, up);
      var stored := StoreToken(cfg, s, drawn, OfToken(th.token), g.userId, g.clientId, g.scope, up);
      SetKeepsLog(stored, id, s'.threads[id]);
      IssuedGrows(s.issued, s'.issued, th.token, g.userId, g.clientId, g.scope);
      ThreadsKept(cfg, s, s', id, s'.threads[id]);
      CodesKept(s, s');
      assert RootsOk(s') by { hide *; ReplyRefreshRoots(cfg, s, id, th, up, drawn); }
    }
  }

  lemma ReplyRefreshRoots(cfg: Config, s: State, id: nat, th: Thread, up: bool, drawn: string)
    requires RootsOk(s) && id in s.threads && s.threads[id] == th && th.RefreshDeleted?
    ensures RootsOk(ReplyRefresh(cfg, s, id, th, up, true, drawn))
  {
  }

  lemma SaveLoginCodeKeeps(cfg: Config, s: State, id: nat, th: Thread, up: bool, drawn: string)
    requires Inv(cfg, s) && id in s.threads && s.threads[id] == th && th.LoginFetched?
    ensures Inv(cfg, SaveLoginCode(cfg, s, id, th, up, drawn))
  {
    hide LogOk, RootsOk, WasIssued, OneRedeemer;
    var s' := SaveLoginCode(cfg, s, id, th, up, drawn);
    assert ThreadOk(cfg, s, th);
    if s'.threads[id].Refused? {
      QuietStep(cfg, s, s', id, Refused);
    } else {
      ThreadsKept(cfg, s, s', id, s'.threads[id]);
      LogKept(s, s');
      assert RootsOk(s') by { hide *; RootsKept(s, s', id); }
    }
  }

  lemma DropSessionKeeps(cfg: Config, s: State, id: nat, th: Thread, up: bool)
    requires Inv(cfg, s) && id in s.threads && s.threads[id] == th && th.LoginSaved?
    ensures Inv(cfg, DropSession(s, id, th, up))
  {
    hide LogOk, RootsOk, WasIssued, OneRedeemer;
    var s' := DropSession(s, id, th, up);
    ThreadsKept(cfg, s, s', id, s'.threads[id]);
    LogKept(s, s');
    assert RootsOk(s') by { hide *; RootsKept(s, s', id); }
  }

  /** Events that run no request. */
  lemma OtherEventKeeps(cfg: Config, s: State, e: Event)
    requires Inv(cfg, s) && !e.Run?
    ensures Inv(cfg, Step(cfg, s, e))
  {
    hide LogOk, CodesOk, RootsOk, WasIssued, OneRedeemer, ThreadsOk;
    var s' := Step(cfg, s, e);
    if e.Arrive? {
      if s' != s {
        QuietStep(cfg, s, s', e.id, e.th);
      }
    } else {
      LogKept(s, s');
      SameThreadsOk(cfg, s, s');
      SameRoots(s, s');
      SessionsGrow(cfg, s, e);
    }
  }

  lemma SameThreadsOk(cfg: Config, s: State, s': State)
    requires ThreadsOk(cfg, s) && Grows(s, s') && s'.threads == s.threads
    ensures ThreadsOk(cfg, s')
  {
    hide ThreadOk, Grows;
    forall j | j in s'.threads ensures ThreadOk(cfg, s', s'.threads[j]) {
      ThreadStaysOk(cfg, s, s', s.threads[j]);
    }
  }

  lemma SameRoots(s: State, s': State)
    requires RootsOk(s) && s'.issued == s.issued && s'.threads == s.threads
    ensures RootsOk(s')
  {
  }

  lemma SessionsGrow(cfg: Config, s: State, e: Event)
    requires CodesOk(s) && (e.Tick? || e.Authorize?)
    ensures CodesOk(Step(cfg, s, e))
  {
  }

  /** Every event keeps the invariant. */
  lemma StepKeeps(cfg: Config, s: State, e: Event)
    requires Inv(cfg, s) && FreshToken(s, e)
    ensures Inv(cfg, Step(cfg, s, e))
  {
    hide Inv, FetchCode, MarkCode, ReplyCode, FetchRefresh, DeleteOld, ReplyRefresh, FetchSession, SaveLoginCode,
      DropSession;
    match e
    case Run(id, up, minted, drawn) =>
      if id in s.threads {
        var th := s.threads[id];
        match th
        case CodeStart(req) => FetchCodeKeeps(cfg, s, id, req, up);
        case CodeFetched(_, _, _) => MarkCodeKeeps(cfg, s, id, th, up);
        case CodeMarked(_, _, _) => ReplyCodeKeeps(cfg, s, id, th, up, minted, drawn);
        case RefreshStart(_, _) => FetchRefreshKeeps(cfg, s, id, th, up);
        case RefreshFetched(_, _) => DeleteOldKeeps(cfg, s, id, th, up);
        case RefreshDeleted(_, _) => ReplyRefreshKeeps(cfg, s, id, th, up, minted, drawn);
        case LoginStart(_, _) => FetchSessionKeeps(cfg, s, id, th, up);
        case LoginFetched(_, _, _) => SaveLoginCodeKeeps(cfg, s, id, th, up, drawn);
        case LoginSaved(_, _) => DropSessionKeeps(cfg, s, id, th, up);
        case _ =>
      }
    case _ => OtherEventKeeps(cfg, s, e);
  }

  /** So does every run, from its first state to its last. */
  lemma {:induction false} RunKeeps(cfg: Config, events: seq<Event>, trace: seq<State>, k: nat)
    requires IsRun(cfg, events, trace) && k <= |events|
    ensures Inv(cfg, trace[k])
  {
    if k == 0 {
      assert Inv(cfg, INITIAL);
    } else {
      hide Inv, Step, FreshToken;
      RunKeeps(cfg, events, trace, k - 1);
      assert Goes(cfg, events, trace, k - 1);
      StepKeeps(cfg, trace[k - 1], events[k - 1]);
    }
  }

  /** The states some run goes through. */
  ghost predicate Reachable(cfg: Config, s: State) {
    exists events, trace :: IsRun(cfg, events, trace) && s in trace
  }

  lemma ReachableOk(cfg: Config, s: State)
    requires Reachable(cfg, s)
    ensures Inv(cfg, s)
  {
    hide IsRun, Inv;
    var events, trace :| IsRun(cfg, events, trace) && s in trace;
    assert |trace| == |events| + 1 by { TraceLength(cfg, events, trace); }
    var k :| 0 <= k < |trace| && trace[k] == s;
    RunKeeps(cfg, events, trace, k);
  }

  lemma TraceLength(cfg: Config, events: seq<Event>, trace: seq<State>)
    requires IsRun(cfg, events, trace)
    ensures |trace| == |events| + 1
  {
  }

  lemma EventGoes(cfg: Config, events: seq<Event>, trace: seq<State>, k: nat)
    requires IsRun(cfg, events, trace) && k < |events|
    ensures FreshToken(trace[k], events[k]) && trace[k + 1] == Step(cfg, trace[k], events[k])
  {
    assert Goes(cfg, events, trace, k);
  }

  lemma InitialIsReachable(cfg: Config)
    ensures Reachable(cfg, INITIAL)
  {
    assert IsRun(cfg, [], [INITIAL]);
  }

  lemma ReachableStep(cfg: Config, s: State, e: Event)
    requires Reachable(cfg, s) && FreshToken(s, e)
    ensures Reachable(cfg, Step(cfg, s, e))
  {
    hide Step, FreshToken, IsRun;
    var events, trace :| IsRun(cfg, events, trace) && s in trace;
    TraceLength(cfg, events, trace);
    var k: nat :| k < |trace| && trace[k] == s;
    ExtendedRun(cfg, events, trace, k, e);
    var longer := trace[..k + 1] + [Step(cfg, s, e)];
    assert longer[k + 1] == Step(cfg, s, e);
  }

  lemma ExtendedRun(cfg: Config, events: seq<Event>, trace: seq<State>, k: nat, e: Event)
    requires IsRun(cfg, events, trace) && k <= |events| && FreshToken(trace[k], e)
    ensures IsRun(cfg, events[..k] + [e], trace[..k + 1] + [Step(cfg, trace[k], e)])
  {
    hide Step, FreshToken;
    var es, ts := events[..k] + [e], trace[..k + 1] + [Step(cfg, trace[k], e)];
    forall i: nat | i < |es| ensures Goes(cfg, es, ts, i) {
      if i < k {
        assert Goes(cfg, events, trace, i);
      }
    }
  }

  lemma FourSteps(cfg: Config, s: State, events: seq<Event>, s1: State, s2: State, s3: State, s4: State)
    requires |events| == 4
    requires Step(cfg, s, events[0]) == s1 && Step(cfg, s1, events[1]) == s2
    requires Step(cfg, s2, events[2]) == s3 && Step(cfg, s3, events[3]) == s4
    ensures RunAll(cfg, s, events) == s4
  {
    hide Step;
    assert events[..3][..2] == events[..2] && events[..2][..1] == events[..1] && events[..1][..0] == [];
    assert RunAll(cfg, s, []) == s;
    assert RunAll(cfg, s, events[..1]) == s1;
    assert RunAll(cfg, s, events[..2]) == s2;
    assert RunAll(cfg, s, events[..3]) == s3;
  }

  lemma FourReachable(cfg: Config, s: State, events: seq<Event>, s1: State, s2: State, s3: State, s4: State)
    requires |events| == 4 && Reachable(cfg, s)
    requires Step(cfg, s, events[0]) == s1 && Step(cfg, s1, events[1]) == s2
    requires Step(cfg, s2, events[2]) == s3 && Step(cfg, s3, events[3]) == s4
    requires FreshToken(s, events[0]) && FreshToken(s1, events[1])
    requires FreshToken(s2, events[2]) && FreshToken(s3, events[3])
    ensures Reachable(cfg, s4)
  {
    hide Step, FreshToken, Reachable;
    ReachableStep(cfg, s, events[0]);
    ReachableStep(cfg, s1, events[1]);
    ReachableStep(cfg, s2, events[2]);
    ReachableStep(cfg, s3, events[3]);
  }
}
