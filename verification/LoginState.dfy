/** The registry of login states: minted before the redirect to a provider, consumed by the callback
    (internal/auth/oauth_state_store_postgres.go). */
module LoginState {

  /** state -> expires_at. */
  type Rows = map<string, int>

  datatype Outcome = Minted | Consumed | EmptyState | UnknownState | ExpiredState | DbError

  /** One call, at a time; `up`: the database carries its statement out.  `state` is the random value a
      Mint draws, or the value a Consume is given. */
  datatype Call = Mint(state: string, now: int, up: bool) | Consume(state: string, now: int, up: bool)

  /** What a call answers. */
  function Answer(rows: Rows, c: Call): Outcome {
    match c
    case Mint(state, _, up) => if !up || state in rows then DbError else Minted
    case Consume(state, now, up) =>
      if state == "" then EmptyState
      else if !up then DbError
      else if state !in rows then UnknownState
      else if now > rows[state] then ExpiredState
      else Consumed
  }

  /** What it leaves in the table. */
  function After(ttl: int, rows: Rows, c: Call): Rows {
    match c
    case Mint(state, now, _) => if Answer(rows, c) == Minted then rows[state := now + ttl] else rows
    case Consume(state, _, _) => if Answer(rows, c) in {Consumed, ExpiredState} then rows - {state} else rows
  }

  class StateStore {
    var rows: Rows
    const ttl: int

    /** NewPGStateStore, on a table that may hold rows: a positive lifetime is kept, any other picks ten
        minutes (in seconds here). */
    constructor (table: Rows, ttl: int)
      ensures rows == table
      ensures this.ttl > 0 && (ttl > 0 ==> this.ttl == ttl) && (ttl <= 0 ==> this.ttl == 10 * 60)
    {
      rows := table;
      this.ttl := if ttl <= 0 then 600 else ttl;
    }

    /** Mint: INSERT, refused by the primary key if the value is there. */
    method MintState(drawn: string, now: int, up: bool) returns (r: Outcome)
      modifies this
      ensures r == Answer(old(rows), Mint(drawn, now, up)) && rows == After(ttl, old(rows), Mint(drawn, now, up))
      ensures if up && drawn !in old(rows) then r == Minted && rows == old(rows)[drawn := now + ttl]
        else r == DbError && rows == old(rows)
    {
      if !up || drawn in rows {
        return DbError;
      }
      rows := rows[drawn := now + ttl];
      return Minted;
    }

    /** Consume: DELETE ... RETURNING, then the expiry test. */
    method ConsumeState(id: string, now: int, up: bool) returns (r: Outcome)
      modifies this
      ensures r == Answer(old(rows), Consume(id, now, up)) && rows == After(ttl, old(rows), Consume(id, now, up))
      ensures r.Consumed? <==> up && id != "" && id in old(rows) && now <= old(rows)[id]
      ensures r.ExpiredState? <==> up && id != "" && id in old(rows) && now > old(rows)[id]
      ensures (r.EmptyState? <==> id == "") && (r.DbError? <==> id != "" && !up) && !r.Minted?
      ensures rows == if up && id != "" && id in old(rows) then old(rows) - {id} else old(rows)
    {
      if id == "" {
        return EmptyState;
      }
      if !up {
        return DbError;
      }
      if id !in rows {
        return UnknownState;
      }
      var expiresAt := rows[id];
      rows := rows - {id};
      if now > expiresAt {
        return ExpiredState;
      }
      return Consumed;
    }
  }

  // ----- Whole runs ----------------------------------------------------------------------------

  /** The rows after some calls on a table. */
  function RunAll(ttl: int, table: Rows, calls: seq<Call>): Rows {
    if calls == [] then table else After(ttl, RunAll(ttl, table, calls[..|calls| - 1]), calls[|calls| - 1])
  }

  /** How many of the calls about `state` were answered `outcome`. */
  function Count(ttl: int, table: Rows, calls: seq<Call>, state: string, outcome: Outcome): nat {
    if calls == [] then 0
    else
      var init, c := calls[..|calls| - 1], calls[|calls| - 1];
      Count(ttl, table, init, state, outcome) + if c.state == state && Answer(RunAll(ttl, table, init), c) == outcome
        then 1 else 0
  }

  /** Over every interleaving of mints and consumes on any table, each state minted or there before is
      accounted for once: consumed, consumed too late, or still pending. */
  lemma {:induction false} StatesAreConserved(ttl: int, table: Rows, calls: seq<Call>, state: string)
    requires state != ""
    ensures Count(ttl, table, calls, state, Minted) + (if state in table then 1 else 0)
         == Count(ttl, table, calls, state, Consumed) + Count(ttl, table, calls, state, ExpiredState)
           + if state in RunAll(ttl, table, calls) then 1 else 0
    decreases |calls|
  {
    hide Answer, After;
    if calls != [] {
      var init, c := calls[..|calls| - 1], calls[|calls| - 1];
      StatesAreConserved(ttl, table, init, state);
      CallEffect(ttl, RunAll(ttl, table, init), c, state);
    }
  }

  lemma CallEffect(ttl: int, rows: Rows, c: Call, state: string)
    requires state != ""
    ensures var (a, rows') := (Answer(rows, c), After(ttl, rows, c));
      if c.state == state && a == Minted then state !in rows && state in rows'
      else if c.state == state && (a == Consumed || a == ExpiredState) then state in rows && state !in rows'
      else state in rows <==> state in rows'
  {
  }

  /** Replay fails: a state drawn once is consumed successfully at most once, however many callbacks
      present it and in whatever order. */
  lemma ConsumedAtMostOnce(ttl: int, table: Rows, calls: seq<Call>, state: string)
    requires Count(ttl, table, calls, state, Minted) + (if state in table then 1 else 0) <= 1
    ensures Count(ttl, table, calls, state, Consumed) <= 1
    ensures Count(ttl, table, calls, state, Consumed) == 1 ==> state !in RunAll(ttl, table, calls)
  {
    hide Answer, After;
    if state == "" {
      EmptyNeverConsumed(ttl, table, calls);
    } else {
      StatesAreConserved(ttl, table, calls, state);
    }
  }

  lemma {:induction false} EmptyNeverConsumed(ttl: int, table: Rows, calls: seq<Call>)
    ensures Count(ttl, table, calls, "", Consumed) == 0
    decreases |calls|
  {
    if calls != [] {
      EmptyNeverConsumed(ttl, table, calls[..|calls| - 1]);
    }
  }
}
