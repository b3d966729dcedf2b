/** The OAuth tables and the statements the handlers run on them, each one atomic
    (internal/auth/oauth_store_postgres.go, internal/db/migrations/0009_oauth.up.sql). */
module OAuthStore {

  datatype Session = Session(clientId: string, redirectUri: string, challenge: string, scope: string)

  datatype Code = Code(clientId: string, userId: string, redirectUri: string, challenge: string, scope: string,
    expiresAt: int, used: bool)

  datatype Refresh = Refresh(userId: string, clientId: string, scope: string, expiresAt: int)

  datatype Result<+T> = Ok(value: T) | NotFound | Failed

  /** Three tables, each keyed on its primary key. */
  datatype Tables = Tables(sessions: map<string, Session>, codes: map<string, Code>, refresh: map<string, Refresh>)

  /** SELECT one session. */
  function SessionRow(t: Tables, id: string, up: bool): Result<Session> {
    if !up then Failed else if id in t.sessions then Ok(t.sessions[id]) else NotFound
  }

  /** SELECT one code, then the used and expiry tests: only an unused, unexpired code is found. */
  function CodeRow(t: Tables, code: string, now: int, up: bool): Result<Code> {
    if !up then Failed
    else if code !in t.codes then NotFound
    else if t.codes[code].used then NotFound
    else if t.codes[code].expiresAt < now then NotFound
    else Ok(t.codes[code])
  }

  function RefreshRow(t: Tables, token: string, now: int, up: bool): Result<Refresh> {
    if !up then Failed
    else if token !in t.refresh then NotFound
    else if t.refresh[token].expiresAt < now then NotFound
    else Ok(t.refresh[token])
  }

  /** The row test of MarkCodeUsed: the code is there and unused. */
  predicate Redeemable(t: Tables, code: string) {
    code in t.codes && !t.codes[code].used
  }

  function WithCodeUsed(t: Tables, code: string): Tables
    requires code in t.codes
  {
    t.(codes := t.codes[code := t.codes[code].(used := true)])
  }

  /** `up` in every method: the database carries the statement out. */
  class Store {
    var tables: Tables

    method SaveSession(id: string, sess: Session, up: bool) returns (r: Result<()>)
      modifies this
      ensures r.Ok? <==> up && id !in old(tables).sessions
      ensures tables == if r.Ok? then old(tables).(sessions := old(tables).sessions[id := sess]) else old(tables)
    {
      if !up || id in tables.sessions {
        return Failed;
      }
      tables := tables.(sessions := tables.sessions[id := sess]);
      return Ok(());
    }

    method GetSession(id: string, up: bool) returns (r: Result<Session>)
      ensures r == SessionRow(tables, id, up)
      ensures (r.Ok? <==> up && id in tables.sessions) && (r.Failed? <==> !up)
      ensures r.Ok? ==> r.value == tables.sessions[id]
    {
      if !up {
        return Failed;
      }
      if id !in tables.sessions {
        return NotFound;
      }
      return Ok(tables.sessions[id]);
    }

    method DeleteSession(id: string, up: bool) returns (r: Result<()>)
      modifies this
      ensures r.Ok? <==> up
      ensures tables == if up then old(tables).(sessions := old(tables).sessions - {id}) else old(tables)
    {
      if !up {
        return Failed;
      }
      tables := tables.(sessions := tables.sessions - {id});
      return Ok(());
    }

    method SaveCode(code: string, row: Code, up: bool) returns (r: Result<()>)
      modifies this
      ensures r.Ok? <==> up && code !in old(tables).codes
      ensures tables == if r.Ok? then old(tables).(codes := old(tables).codes[code := row]) else old(tables)
    {
      if !up || code in tables.codes {
        return Failed;
      }
      tables := tables.(codes := tables.codes[code := row]);
      return Ok(());
    }

    method GetCode(code: string, now: int, up: bool) returns (r: Result<Code>)
      ensures r == CodeRow(tables, code, now, up)
      ensures r.Ok? <==> up && code in tables.codes && !tables.codes[code].used && now <= tables.codes[code].expiresAt
      ensures (r.Failed? <==> !up) && (r.Ok? ==> r.value == tables.codes[code])
    {
      if !up {
        return Failed;
      }
      if code !in tables.codes {
        return NotFound;
      }
      var c := tables.codes[code];
      if c.used {
        return NotFound;
      }
      if c.expiresAt < now {
        return NotFound;
      }
      return Ok(c);
    }

    /** MarkCodeUsed: UPDATE ... WHERE code = $1 AND used = FALSE, an error when no row changed. */
    method MarkCodeUsed(code: string, up: bool) returns (r: Result<()>)
      modifies this
      ensures r.Ok? <==> up && code in old(tables).codes && !old(tables).codes[code].used
      ensures tables == if r.Ok?
        then old(tables).(codes := old(tables).codes[code := old(tables).codes[code].(used := true)]) else old(tables)
    {
      if !up {
        return Failed;
      }
      if code !in tables.codes || tables.codes[code].used {
        return NotFound;
      }
      tables := WithCodeUsed(tables, code);
      return Ok(());
    }

    method SaveRefreshToken(token: string, row: Refresh, up: bool) returns (r: Result<()>)
      modifies this
      ensures r.Ok? <==> up && token !in old(tables).refresh
      ensures tables == if r.Ok? then old(tables).(refresh := old(tables).refresh[token := row]) else old(tables)
    {
      if !up || token in tables.refresh {
        return Failed;
      }
      tables := tables.(refresh := tables.refresh[token := row]);
      return Ok(());
    }

    method GetRefreshToken(token: string, now: int, up: bool) returns (r: Result<Refresh>)
      ensures r == RefreshRow(tables, token, now, up)
      ensures r.Ok? <==> up && token in tables.refresh && now <= tables.refresh[token].expiresAt
      ensures (r.Failed? <==> !up) && (r.Ok? ==> r.value == tables.refresh[token])
    {
      if !up {
        return Failed;
      }
      if token !in tables.refresh {
        return NotFound;
      }
      if tables.refresh[token].expiresAt < now {
        return NotFound;
      }
      return Ok(tables.refresh[token]);
    }

    /** DeleteRefreshToken: no error when there is no such row. */
    method DeleteRefreshToken(token: string, up: bool) returns (r: Result<()>)
      modifies this
      ensures r.Ok? <==> up
      ensures tables == if up then old(tables).(refresh := old(tables).refresh - {token}) else old(tables)
    {
      if !up {
        return Failed;
      }
      tables := tables.(refresh := tables.refresh - {token});
      return Ok(());
    }
  }
}
