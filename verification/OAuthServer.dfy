/** The token handlers as the source runs them, one statement after another on the store; each run on
    its own is a run of the protocol (internal/auth/oauth_server.go). */
module OAuthServer {
  import opened OAuthStore
  import opened OAuthProtocol

  /** How the database and the token minter answer, statement by statement. */
  datatype Luck = Luck(lookup: bool, change: bool, save: bool, minted: bool)

  /** A request alone on the tables. */
  function Alone(t: Tables, now: int, th: Thread): State {
    State(now, t, map[0 := th], map[], map[], [])
  }

  /** Its next statement. */
  function Then(cfg: Config, s: State, up: bool, luck: Luck, drawn: string): State {
    Step(cfg, s, Run(0, up, luck.minted, drawn))
  }

  /** Its steps, uninterrupted. */
  function Uninterrupted(cfg: Config, t: Tables, now: int, th: Thread, luck: Luck, drawn: string): State {
    Then(cfg, Then(cfg, Then(cfg, Alone(t, now, th), luck.lookup, luck, drawn), luck.change, luck, drawn), luck.save,
      luck, drawn)
  }

  lemma EndedStays(cfg: Config, s: State, up: bool, luck: Luck, drawn: string)
    requires s.threads == map[0 := Refused]
    ensures Then(cfg, s, up, luck, drawn) == s
  {
  }

  lemma SetAlone(s: State, th: Thread, th': Thread)
    requires s.threads == map[0 := th]
    ensures Set(s, 0, th').threads == map[0 := th']
  {
  }

  lemma CodeLookup(cfg: Config, t: Tables, now: int, req: CodeRequest, up: bool, luck: Luck, drawn: string)
    ensures var r := CodeRow(t, req.code, now, up);
      Then(cfg, Alone(t, now, CodeStart(req)), up, luck, drawn) ==
        if req.code == "" || req.clientId == "" || req.redirectUri == "" || req.verifier == "" || !r.Ok?
           || r.value.clientId != req.clientId || r.value.redirectUri != req.redirectUri
           || !VerifyPkce(cfg, req.verifier, r.value.challenge)
        then Alone(t, now, Refused) else Alone(t, now, CodeFetched(req, r.value, now))
  {
    hide CodeRow, VerifyPkce;
    SetAlone(Alone(t, now, CodeStart(req)), CodeStart(req), Refused);
  }

  lemma CodeMark(cfg: Config, t: Tables, now: int, req: CodeRequest, got: Code, up: bool, luck: Luck, drawn: string)
    ensures Then(cfg, Alone(t, now, CodeFetched(req, got, now)), up, luck, drawn) ==
      if up && Redeemable(t, req.code) then Alone(WithCodeUsed(t, req.code), now, CodeMarked(req, got, now))
        else Alone(t, now, Refused)
  {
    SetAlone(Alone(t, now, CodeFetched(req, got, now)), CodeFetched(req, got, now), Refused);
  }

  /** The tables once a grant has tried to store its token. */
  function Stored(t: Tables, token: string, row: Refresh, up: bool): Tables {
    if !up || token in t.refresh then t else t.(refresh := t.refresh[token := row])
  }

  lemma CodeReply(cfg: Config, t: Tables, now: int, req: CodeRequest, got: Code, up: bool, luck: Luck, drawn: string)
    ensures var s := Then(cfg, Alone(t, now, CodeMarked(req, got, now)), up, luck, drawn);
      && s.tables
      == (if luck.minted then Stored(t, drawn, Refresh(got.userId, got.clientId, got.scope, now + cfg.refreshTtl), up)
        else t)
      && s.threads
      == map[0 := if luck.minted then CodeReplied(req, now, Response(got.userId, got.clientId, got.scope, drawn))
        else Refused]
  {
    SetAlone(Alone(t, now, CodeMarked(req, got, now)), CodeMarked(req, got, now), Refused);
  }

  lemma RefreshLookup(cfg: Config, t: Tables, now: int, token: string, clientId: string, up: bool, luck: Luck,
      drawn: string)
    ensures var r := RefreshRow(t, token, now, up);
      Then(cfg, Alone(t, now, RefreshStart(token, clientId)), up, luck, drawn) ==
        if token == "" || clientId == "" || !r.Ok? || r.value.clientId != clientId
        then Alone(t, now, Refused) else Alone(t, now, RefreshFetched(token, r.value))
  {
    hide RefreshRow;
    SetAlone(Alone(t, now, RefreshStart(token, clientId)), RefreshStart(token, clientId), Refused);
  }

  lemma RefreshDelete(cfg: Config, t: Tables, now: int, token: string, row: Refresh, up: bool, luck: Luck,
      drawn: string)
    ensures Then(cfg, Alone(t, now, RefreshFetched(token, row)), up, luck, drawn) ==
      Alone(if up then t.(refresh := t.refresh - {token}) else t, now, RefreshDeleted(token, row))
  {
  }

  lemma RefreshReply(cfg: Config, t: Tables, now: int, token: string, row: Refresh, up: bool, luck: Luck, drawn: string)
    ensures var s := Then(cfg, Alone(t, now, RefreshDeleted(token, row)), up, luck, drawn);
      && s.tables
      == (if luck.minted then Stored(t, drawn, Refresh(row.userId, row.clientId, row.scope, now + cfg.refreshTtl), up)
        else t)
      && s.threads
      == map[0 := if luck.minted then RefreshReplied(token, Response(row.userId, row.clientId, row.scope, drawn))
        else Refused]
  {
    SetAlone(Alone(t, now, RefreshDeleted(token, row)), RefreshDeleted(token, row), Refused);
  }

  lemma LoginSteps(cfg: Config, t: Tables, now: int, session: string, userId: string, luck: Luck, drawn: string)
    ensures var (s, r) :=
      (Uninterrupted(cfg, t, now, LoginStart(session, userId), luck, drawn), SessionRow(t, session, luck.lookup));
      if !r.Ok? || !luck.change || drawn in t.codes then s.tables == t && s.threads == map[0 := Refused]
      else
        var row :=
          Code(r.value.clientId, userId, r.value.redirectUri, r.value.challenge, r.value.scope, now + cfg.codeTtl,
            false);
        && s.tables
        == t.(codes := t.codes[drawn := row], sessions := if luck.save then t.sessions - {session} else t.sessions)
        && s.threads == map[0 := LoginDone(session, drawn)]
  {
    var s0 := Alone(t, now, LoginStart(session, userId));
    var s1 := Then(cfg, s0, luck.lookup, luck, drawn);
    var s2 := Then(cfg, s1, luck.change, luck, drawn);
    assert s1 == FetchSession(s0, 0, s0.threads[0], luck.lookup);
    if s1.threads[0].Refused? {
      SetAlone(s0, s0.threads[0], Refused);
    } else {
      assert s2 == SaveLoginCode(cfg, s1, 0, s1.threads[0], luck.change, drawn);
    }
  }

  /** handleAuthCodeGrant.  The result is what the request's thread ends as: an answer exactly for a code that
      is there, unused and unexpired, from the client and with the redirect URI it was issued for, and with a
      verifier whose transform is its challenge.  The code is used up even when no token can be minted. */
  method HandleAuthCodeGrant(cfg: Config, store: Store, req: CodeRequest, now: int, luck: Luck, drawn: string)
    returns (end: Thread)
    modifies store
    ensures var s := Uninterrupted(cfg, old(store.tables), now, CodeStart(req), luck, drawn);
      store.tables == s.tables && s.threads == map[0 := end]
    ensures var codes := old(store.tables).codes;
      var redeemed :=
        && luck.lookup && luck.change && req.code != "" && req.clientId != "" && req.redirectUri != ""
        && req.verifier != "" && req.code in codes && !codes[req.code].used && now <= codes[req.code].expiresAt
        && codes[req.code].clientId == req.clientId && codes[req.code].redirectUri == req.redirectUri
        && codes[req.code].challenge != "" && cfg.s256(req.verifier) == codes[req.code].challenge;
      if !redeemed then end == Refused && store.tables == old(store.tables)
      else
        var c := codes[req.code];
        && store.tables.codes == codes[req.code := c.(used := true)]
        && store.tables.sessions == old(store.tables).sessions
        && store.tables.refresh == (
          if luck.minted && luck.save && drawn !in old(store.tables).refresh
          then old(store.tables).refresh[drawn := Refresh(c.userId, c.clientId, c.scope, now + cfg.refreshTtl)]
          else old(store.tables).refresh)
        && end == if luck.minted then CodeReplied(req, now, Response(c.userId, c.clientId, c.scope, drawn))
          else Refused
  {
    hide Then, CodeRow;
    ghost var t := store.tables;
    CodeLookup(cfg, t, now, req, luck.lookup, luck, drawn);
    EndedStays(cfg, Alone(t, now, Refused), luck.change, luck, drawn);
    EndedStays(cfg, Alone(t, now, Refused), luck.save, luck, drawn);
    if req.code == "" || req.clientId == "" || req.redirectUri == "" || req.verifier == "" {
      return Refused;
    }
    var r := store.GetCode(req.code, now, luck.lookup);
    if !r.Ok? {
      return Refused;
    }
    var authCode := r.value;
    if authCode.clientId != req.clientId {
      return Refused;
    }
    if authCode.redirectUri != req.redirectUri {
      return Refused;
    }
    if !VerifyPkce(cfg, req.verifier, authCode.challenge) {
      return Refused;
    }
    CodeMark(cfg, t, now, req, authCode, luck.change, luck, drawn);
    var marked := store.MarkCodeUsed(req.code, luck.change);
    if !marked.Ok? {
      return Refused;
    }
    CodeReply(cfg, store.tables, now, req, authCode, luck.save, luck, drawn);
    if !luck.minted {
      return Refused;
    }
    var _ := store.SaveRefreshToken(drawn,
      Refresh(authCode.userId, authCode.clientId, authCode.scope, now + cfg.refreshTtl), luck.save);
    return CodeReplied(req, now, Response(authCode.userId, authCode.clientId, authCode.scope, drawn));
  }

  /** handleRefreshTokenGrant: an answer exactly for a token that is there and unexpired, from the client it
      was issued to.  The token is deleted even when no new one can be minted. */
  method HandleRefreshTokenGrant(cfg: Config, store: Store, token: string, clientId: string, now: int, luck: Luck,
      drawn: string)
    returns (end: Thread)
    modifies store
    ensures var s := Uninterrupted(cfg, old(store.tables), now, RefreshStart(token, clientId), luck, drawn);
      store.tables == s.tables && s.threads == map[0 := end]
    ensures var live := old(store.tables).refresh;
      var granted :=
        && luck.lookup && token != "" && clientId != "" && token in live && now <= live[token].expiresAt
        && live[token].clientId == clientId;
      if !granted then end == Refused && store.tables == old(store.tables)
      else
        var (row, left) := (live[token], if luck.change then live - {token} else live);
        && store.tables.codes == old(store.tables).codes && store.tables.sessions == old(store.tables).sessions
        && store.tables.refresh == (
          if luck.minted && luck.save && drawn !in left
          then left[drawn := Refresh(row.userId, row.clientId, row.scope, now + cfg.refreshTtl)] else left)
        && end == if luck.minted then RefreshReplied(token, Response(row.userId, row.clientId, row.scope, drawn))
          else Refused
  {
    hide Then, RefreshRow;
    ghost var t := store.tables;
    RefreshLookup(cfg, t, now, token, clientId, luck.lookup, luck, drawn);
    EndedStays(cfg, Alone(t, now, Refused), luck.change, luck, drawn);
    EndedStays(cfg, Alone(t, now, Refused), luck.save, luck, drawn);
    if token == "" || clientId == "" {
      return Refused;
    }
    var r := store.GetRefreshToken(token, now, luck.lookup);
    if !r.Ok? {
      return Refused;
    }
    var rt := r.value;
    if rt.clientId != clientId {
      return Refused;
    }
    RefreshDelete(cfg, t, now, token, rt, luck.change, luck, drawn);
    var _ := store.DeleteRefreshToken(token, luck.change);
    RefreshReply(cfg, store.tables, now, token, rt, luck.save, luck, drawn);
    if !luck.minted {
      return Refused;
    }
    var _ := store.SaveRefreshToken(drawn, Refresh(rt.userId, rt.clientId, rt.scope, now + cfg.refreshTtl), luck.save);
    return RefreshReplied(token, Response(rt.userId, rt.clientId, rt.scope, drawn));
  }

  /** CompleteAuthorization: a code for the session's own client, redirect URI, challenge and scope, exactly
      when the session is there and the code is saved. */
  method CompleteAuthorization(cfg: Config, store: Store, session: string, userId: string, now: int, luck: Luck,
      drawn: string)
    returns (end: Thread)
    modifies store
    ensures var s := Uninterrupted(cfg, old(store.tables), now, LoginStart(session, userId), luck, drawn);
      store.tables == s.tables && s.threads == map[0 := end]
    ensures var t := old(store.tables);
      if !(luck.lookup && luck.change && session in t.sessions && drawn !in t.codes)
      then end == Refused && store.tables == t
      else
        var sess := t.sessions[session];
        && end == LoginDone(session, drawn) && store.tables.refresh == t.refresh
        && store.tables.codes == t.codes[drawn := Code(sess.clientId, userId, sess.redirectUri, sess.challenge,
          sess.scope, now + cfg.codeTtl, false)]
        && store.tables.sessions == if luck.save then t.sessions - {session} else t.sessions
  {
    hide Uninterrupted, SessionRow;
    LoginSteps(cfg, store.tables, now, session, userId, luck, drawn);
    var r := store.GetSession(session, luck.lookup);
    if !r.Ok? {
      return Refused;
    }
    var sess := r.value;
    var row := Code(sess.clientId, userId, sess.redirectUri, sess.challenge, sess.scope, now + cfg.codeTtl, false);
    var saved := store.SaveCode(drawn, row, luck.change);
    if !saved.Ok? {
      return Refused;
    }
    var _ := store.DeleteSession(session, luck.save);
    return LoginDone(session, drawn);
  }
}
