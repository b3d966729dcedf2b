/** What the token endpoint grants, over whole runs of the protocol: one token a code, and the lineage of
    every refresh token (internal/auth/oauth_server.go). */
module OAuthGrants {
  import opened OAuthStore
  import opened OAuthProtocol

  // ----- Codes ---------------------------------------------------------------------------------

  /** In every interleaving of any number of requests, each authorization code is answered with a token
      at most once (section 4.1.2 of RFC 6749). */
  lemma AtMostOneTokenPerCode(cfg: Config, s: State, i: nat, j: nat)
    requires Reachable(cfg, s) && i in s.threads && j in s.threads
    requires s.threads[i].CodeReplied? && s.threads[j].CodeReplied? && s.threads[i].req.code == s.threads[j].req.code
    ensures i == j
  {
    ReachableOk(cfg, s);
    assert Redeems(s.threads[i], s.threads[i].req.code) && Redeems(s.threads[j], s.threads[i].req.code);
  }

  /** That answer carries the code's own user, client and scope, and goes to a request that named the
      client and redirect URI of the authorize request the code came from, proved its challenge, and
      looked the code up before it expired. */
  lemma TokenTracesToAuthorization(cfg: Config, s: State, id: nat)
    requires Reachable(cfg, s) && id in s.threads && s.threads[id].CodeReplied?
    ensures var (req, resp) := (s.threads[id].req, s.threads[id].resp);
      && Used(s, req.code)
      && s.threads[id].at <= s.tables.codes[req.code].expiresAt
      && resp.userId == s.tables.codes[req.code].userId
      && req.code in s.origin && s.origin[req.code] in s.sessions
      && var sess := s.sessions[s.origin[req.code]];
      && resp.clientId == req.clientId == sess.clientId && req.redirectUri == sess.redirectUri
      && req.verifier != "" && cfg.s256(req.verifier) == sess.challenge && resp.scope == sess.scope
  {
    ReachableOk(cfg, s);
    assert ThreadOk(cfg, s, s.threads[id]);
  }

  // ----- Lineage -------------------------------------------------------------------------------

  /** The code the token of entry i descends from: follow the parents down to a code. */
  ghost function RootOf(issued: seq<Issued>, i: nat): (c: string)
    requires i < |issued|
    decreases i
  {
    match issued[i].parent
    case OfCode(c) => c
    case OfToken(o) =>
      if exists j: nat :: j < i && issued[j].token == o
      then var j: nat :| j < i && issued[j].token == o; RootOf(issued, j)
      else ""
  }

  lemma {:induction false} RootGrants(s: State, i: nat)
    requires LogOk(s) && i < |s.issued|
    ensures var (c, e) := (RootOf(s.issued, i), s.issued[i]);
      Used(s, c) && GrantedBy(s.tables.codes[c], e.userId, e.clientId, e.scope)
    decreases i
  {
    assert EntryOk(s, i);
    match s.issued[i].parent
    case OfCode(c) =>
    case OfToken(o) =>
      var e := s.issued[i];
      var k :| IsIssued(s.issued[..i], k, o, e.userId, e.clientId, e.scope);
      assert s.issued[k].token == o;
      var j: nat :| j < i && s.issued[j].token == o && RootOf(s.issued, i) == RootOf(s.issued, j);
      RootGrants(s, j);
  }

  /** Every refresh token ever stored descends from one redeemed code and has that code's user, client
      and scope, however often it was rotated; and no two lineages start at one code. */
  lemma RefreshTokensKeepTheirGrant(cfg: Config, s: State, i: nat)
    requires Reachable(cfg, s) && i < |s.issued|
    ensures var (c, e) := (RootOf(s.issued, i), s.issued[i]);
      && Used(s, c) && GrantedBy(s.tables.codes[c], e.userId, e.clientId, e.scope)
      && (forall j :: 0 <= j < |s.issued| && s.issued[j].parent == s.issued[i].parent == OfCode(c) ==> j == i)
  {
    ReachableOk(cfg, s);
    RootGrants(s, i);
  }

  /** A refresh response has the grant of the code its old token descends from. */
  lemma RefreshRepliesKeepTheirGrant(cfg: Config, s: State, id: nat)
    requires Reachable(cfg, s) && id in s.threads && s.threads[id].RefreshReplied?
    ensures var (token, resp) := (s.threads[id].token, s.threads[id].resp);
      exists i :: 0 <= i < |s.issued| && s.issued[i].token == token
        && Used(s, RootOf(s.issued, i))
        && GrantedBy(s.tables.codes[RootOf(s.issued, i)], resp.userId, resp.clientId, resp.scope)
  {
    ReachableOk(cfg, s);
    assert ThreadOk(cfg, s, s.threads[id]);
    var (token, resp) := (s.threads[id].token, s.threads[id].resp);
    var i :| IsIssued(s.issued, i, token, resp.userId, resp.clientId, resp.scope);
    RootGrants(s, i);
  }
}
