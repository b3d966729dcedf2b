/** API keys: a table with one slot a (user, project, agent), rotated in place
    (internal/auth/store.go, internal/db/migrations/0002_auth.up.sql). */
module ApiKeys {
  import opened Text

  /** One row; project "" stands for NULL, revoked for a set revoked_at. */
  datatype Key = Key(userId: string, project: string, agent: string, role: string, hash: string, expiresAt: Expiry,
    revoked: bool)

  datatype Expiry = Never | At(time: int)

  /** Rows by primary key. */
  type Table = map<string, Key>

  /** The columns of the partial unique index api_keys_project_agent. */
  datatype Slot = Slot(userId: string, project: string, agent: string)

  predicate Occupies(k: Key, slot: Slot) {
    k.project != "" && Slot(k.userId, k.project, k.agent) == slot
  }

  /** The rows the slot index holds for `slot`. */
  function SlotRows(t: Table, slot: Slot): set<string> {
    set id | id in t && Occupies(t[id], slot)
  }

  predicate HashTaken(t: Table, hash: string) {
    exists id :: id in t && t[id].hash == hash
  }

  /** What the INSERT of issueWithRaw comes to: an error of a unique index, nothing because the hash is
      there already, or a row. */
  datatype Insert = Violation | Noop | Wrote

  /** The slot index is the arbiter of a project-scoped insert, key_hash of an unbound one. */
  function InsertOutcome(t: Table, id: string, k: Key): Insert {
    if k.project != "" then
      var others := t - SlotRows(t, Slot(k.userId, k.project, k.agent));
      if id in others || HashTaken(others, k.hash) then Violation else Wrote
    else if HashTaken(t, k.hash) then Noop
    else if id in t then Violation else Wrote
  }

  function AfterInsert(t: Table, id: string, k: Key): Table {
    if !InsertOutcome(t, id, k).Wrote? then t
    else if k.project != "" then (t - SlotRows(t, Slot(k.userId, k.project, k.agent)))[id := k]
    else t[id := k]
  }

  /** UPDATE ... SET revoked_at WHERE id = $1 AND revoked_at IS NULL. */
  predicate Revocable(t: Table, id: string) {
    id in t && !t[id].revoked
  }

  function AfterRevoke(t: Table, id: string): Table
    requires id in t
  {
    t[id := t[id].(revoked := true)]
  }

  predicate Active(k: Key, now: int) {
    !k.revoked && (k.expiresAt.Never? || k.expiresAt.time > now)
  }

  /** The row under `id` is the one ValidateKeyWithRole finds for a key with this hash. */
  predicate Finds(t: Table, hash: string, now: int, id: string) {
    id in t && t[id].hash == hash && Active(t[id], now)
  }

  /** Another row has the id, or the hash; of the slot's own row a project key takes both. */
  predicate Refuses(t: Table, id: string, slot: Slot, hash: string) {
    if slot.project != "" then exists i :: i in t && !Occupies(t[i], slot) && (i == id || t[i].hash == hash)
    else id in t && forall i :: i in t ==> t[i].hash != hash
  }

  /** The three unique indexes. */
  ghost predicate Unique(t: Table) {
    forall i, j :: i in t && j in t && i != j ==>
      t[i].hash != t[j].hash && !Occupies(t[i], Slot(t[j].userId, t[j].project, t[j].agent))
  }

  /** Who a valid key speaks for. */
  datatype Caller = Caller(userId: string, role: string, project: string)

  function CallerOf(k: Key): Caller {
    Caller(k.userId, k.role, k.project)
  }

  datatype Answer = Valid(caller: Caller) | InvalidKey | DbError

  class KeyStore {
    var rows: Table
    const hash: string -> string

    constructor (rows: Table, hash: string -> string)
      ensures this.rows == rows && this.hash == hash
    {
      this.rows := rows;
      this.hash := hash;
    }

    /** issueWithRaw: the insert (`up`: the database carries it out), then the row found under the raw
        key's hash (`read`: and answers).  A project key takes its slot alone, an unbound key adds one row
        or is there already, and no other row changes.  None is an error, and then nothing was written,
        unless only the second statement failed: the slot is rotated although the caller gets no key. */
    method IssueWithRaw(id: string, slot: Slot, raw: string, role: string, expiresAt: Expiry, up: bool, read: bool)
      returns (found: Option<string>)
      requires Unique(rows)
      modifies this
      ensures Unique(rows)
      ensures rows == After(hash, old(rows), Issue(id, slot, raw, role, expiresAt, up))
      ensures found.None? <==> !up || !read || Refuses(old(rows), id, slot, hash(raw))
      ensures !up || Refuses(old(rows), id, slot, hash(raw)) ==> rows == old(rows)
      ensures found.Some? ==> found.value in rows && forall i :: i in rows && rows[i].hash == hash(raw) <==>
        i == found.value
      ensures up && !Refuses(old(rows), id, slot, hash(raw)) && slot.project != "" ==>
        && SlotRows(rows, slot) == {id} && (found.Some? ==> found.value == id)
        && rows[id] == Key(slot.userId, slot.project, slot.agent, role, hash(raw), expiresAt, false)
      ensures up && !Refuses(old(rows), id, slot, hash(raw)) && slot.project == "" ==>
        if HashTaken(old(rows), hash(raw)) then rows == old(rows)
        else
          && (found.Some? ==> found.value == id)
          && rows == old(rows)[id := Key(slot.userId, "", slot.agent, role, hash(raw), expiresAt, false)]
      ensures forall i :: i in old(rows) && !Occupies(old(rows)[i], slot) ==> i in rows && rows[i] == old(rows)[i]
      ensures forall i :: i in rows ==> i == id || (i in old(rows) && rows[i] == old(rows)[i])
    {
      if !up {
        return None;
      }
      var k := Key(slot.userId, slot.project, slot.agent, role, hash(raw), expiresAt, false);
      InsertKeepsUnique(rows, id, k);
      if slot.project != "" {
        RefusedInsert(rows, id, k);
        InsertedInSlot(rows, id, k);
        // ON CONFLICT (user_id, project_id, agent_name) DO UPDATE
        var others := rows - SlotRows(rows, slot);
        if id in others || HashTaken(others, k.hash) {
          return None;
        }
        rows := others[id := k];
        return if read then Some(id) else None;
      }
      // ON CONFLICT (key_hash) DO NOTHING
      if i :| i in rows && rows[i].hash == k.hash {
        return if read then Some(i) else None;
      }
      if id in rows {
        return None;
      }
      rows := rows[id := k];
      return if read then Some(id) else None;
    }

    /** ValidateKeyWithRole: the user, role and project of the one active row with the key's hash. */
    method ValidateKeyWithRole(raw: string, now: int, up: bool) returns (r: Answer)
      requires Unique(rows)
      ensures r.DbError? <==> !up
      ensures r.InvalidKey? <==> up && forall i :: !Finds(rows, hash(raw), now, i)
      ensures forall i :: up && Finds(rows, hash(raw), now, i) ==> r == Valid(CallerOf(rows[i]))
    {
      if !up {
        return DbError;
      }
      if i :| i in rows && Finds(rows, hash(raw), now, i) {
        return Valid(CallerOf(rows[i]));
      }
      return InvalidKey;
    }

    method RevokeKey(id: string, up: bool) returns (ok: bool)
      requires Unique(rows)
      modifies this
      ensures Unique(rows)
      ensures ok <==> up && id in old(rows) && !old(rows)[id].revoked
      ensures rows == if ok then AfterRevoke(old(rows), id) else old(rows)
      ensures ok ==> forall now :: !Finds(rows, old(rows)[id].hash, now, id)
    {
      if !up || id !in rows || rows[id].revoked {
        return false;
      }
      rows := AfterRevoke(rows, id);
      return true;
    }

    method RevokeKeyForUser(userId: string, id: string, up: bool) returns (ok: bool)
      requires Unique(rows)
      modifies this
      ensures Unique(rows)
      ensures ok <==> up && id in old(rows) && !old(rows)[id].revoked && old(rows)[id].userId == userId
      ensures rows == if ok then AfterRevoke(old(rows), id) else old(rows)
    {
      if !up || id !in rows || rows[id].revoked || rows[id].userId != userId {
        return false;
      }
      rows := AfterRevoke(rows, id);
      return true;
    }
  }

  // ----- Runs ----------------------------------------------------------------------------------

  /** `up`: the database carries the insert or the update out. */
  datatype Call =
    | Issue(id: string, slot: Slot, raw: string, role: string, expiresAt: Expiry, up: bool)
    | Revoke(id: string, up: bool)
    | RevokeForUser(userId: string, id: string, up: bool)

  function NewKey(h: string -> string, c: Call): Key
    requires c.Issue?
  {
    Key(c.slot.userId, c.slot.project, c.slot.agent, c.role, h(c.raw), c.expiresAt, false)
  }

  function After(h: string -> string, t: Table, c: Call): Table {
    match c
    case Issue(id, _, _, _, _, up) => if up then AfterInsert(t, id, NewKey(h, c)) else t
    case Revoke(id, up) => if up && Revocable(t, id) then AfterRevoke(t, id) else t
    case RevokeForUser(userId, id, up) =>
      if up && Revocable(t, id) && t[id].userId == userId then AfterRevoke(t, id) else t
  }

  function RunFrom(h: string -> string, t: Table, calls: seq<Call>): Table {
    if calls == [] then t else After(h, RunFrom(h, t, calls[..|calls| - 1]), calls[|calls| - 1])
  }

  lemma InsertKeepsUnique(t: Table, id: string, k: Key)
    requires Unique(t)
    ensures Unique(AfterInsert(t, id, k))
  {
    var t' := AfterInsert(t, id, k);
    if InsertOutcome(t, id, k).Wrote? {
      forall i | i in t' && i != id
        ensures t'[i].hash != k.hash && !Occupies(t'[i], Slot(k.userId, k.project, k.agent))
             && !Occupies(k, Slot(t'[i].userId, t'[i].project, t'[i].agent))
      {
        assert i in t && t'[i] == t[i];
      }
    }
  }

  lemma CallKeepsUnique(h: string -> string, t: Table, c: Call)
    requires Unique(t)
    ensures Unique(After(h, t, c))
  {
    hide AfterInsert;
    if c.Issue? {
      InsertKeepsUnique(t, c.id, NewKey(h, c));
    }
  }

  lemma {:induction false} RunKeepsUnique(h: string -> string, t: Table, calls: seq<Call>)
    requires Unique(t)
    ensures Unique(RunFrom(h, t, calls))
    decreases |calls|
  {
    hide Unique, After;
    if calls != [] {
      RunKeepsUnique(h, t, calls[..|calls| - 1]);
      CallKeepsUnique(h, RunFrom(h, t, calls[..|calls| - 1]), calls[|calls| - 1]);
    }
  }

  /** The last issue that took the slot, and whether its key was revoked since. */
  datatype Holder = Nobody | Holder(id: string, raw: string, role: string, expiresAt: Expiry, revoked: bool)

  predicate Takes(h: string -> string, t: Table, c: Call, slot: Slot) {
    c.Issue? && c.up && c.slot == slot && slot.project != "" && !Refuses(t, c.id, slot, h(c.raw))
  }

  /** The call revokes the key under `id`, whose user is `userId`. */
  predicate RevokesId(c: Call, userId: string, id: string) {
    match c
    case Issue(_, _, _, _, _, _) => false
    case Revoke(i, up) => up && i == id
    case RevokeForUser(u, i, up) => up && i == id && u == userId
  }

  function Newest(h: string -> string, calls: seq<Call>, slot: Slot): Holder {
    if calls == [] then Nobody
    else
      var (init, c) := (calls[..|calls| - 1], calls[|calls| - 1]);
      NextHolder(h, RunFrom(h, map[], init), c, slot, Newest(h, init, slot))
  }

  function NextHolder(h: string -> string, t: Table, c: Call, slot: Slot, holder: Holder): Holder {
    if Takes(h, t, c, slot) then Holder(c.id, c.raw, c.role, c.expiresAt, false)
    else if holder.Holder? && RevokesId(c, slot.userId, holder.id) then holder.(revoked := true)
    else holder
  }

  lemma InsertInSlot(t: Table, id: string, k: Key, slot: Slot)
    requires InsertOutcome(t, id, k).Wrote?
    ensures Occupies(k, slot) ==> SlotRows(AfterInsert(t, id, k), slot) == {id} && AfterInsert(t, id, k)[id] == k
    ensures !Occupies(k, slot) ==> SlotRows(AfterInsert(t, id, k), slot) == SlotRows(t, slot)
    ensures !Occupies(k, slot) ==> forall i :: i in SlotRows(t, slot) ==> AfterInsert(t, id, k)[i] == t[i]
  {
  }

  /** The slot's key as its holder's issue and revocation leave it. */
  function HeldKey(h: string -> string, slot: Slot, holder: Holder): Key
    requires holder.Holder?
  {
    Key(slot.userId, slot.project, slot.agent, holder.role, h(holder.raw), holder.expiresAt, holder.revoked)
  }

  /** The slot holds nothing before its first issue, and then one row: the newest key. */
  ghost predicate SlotHolds(h: string -> string, t: Table, slot: Slot, holder: Holder) {
    if holder.Nobody? then SlotRows(t, slot) == {}
    else
      && slot.project != "" && SlotRows(t, slot) == {holder.id}
      && holder.id in t && t[holder.id] == HeldKey(h, slot, holder)
  }

  /** Over every run of issues and revocations, a slot has at most one row, and its row is the key of the
      last issue that took the slot, revoked if it was revoked since. */
  lemma {:induction false} SlotHoldsLastIssued(h: string -> string, calls: seq<Call>, slot: Slot)
    ensures SlotHolds(h, RunFrom(h, map[], calls), slot, Newest(h, calls, slot))
    decreases |calls|
  {
    hide AfterInsert, InsertOutcome, AfterRevoke, SlotRows, SlotHolds, NextHolder;
    if calls == [] {
      EmptySlot(h, slot);
    } else {
      var init, c := calls[..|calls| - 1], calls[|calls| - 1];
      SlotHoldsLastIssued(h, init, slot);
      CallInSlot(h, RunFrom(h, map[], init), c, slot, Newest(h, init, slot));
    }
  }

  lemma EmptySlot(h: string -> string, slot: Slot)
    ensures SlotHolds(h, map[], slot, Nobody)
  {
  }

  /** An issue is refused exactly when the insert violates an index, for a project key. */
  lemma RefusedInsert(t: Table, id: string, k: Key)
    requires k.project != ""
    ensures Refuses(t, id, Slot(k.userId, k.project, k.agent), k.hash) <==> InsertOutcome(t, id, k).Violation?
    ensures InsertOutcome(t, id, k).Violation? || InsertOutcome(t, id, k).Wrote?
  {
    var slot := Slot(k.userId, k.project, k.agent);
    var others := t - SlotRows(t, slot);
    forall i ensures i in others <==> i in t && !Occupies(t[i], slot) {
    }
  }

  lemma InsertedInSlot(t: Table, id: string, k: Key)
    requires k.project != ""
    ensures InsertOutcome(t, id, k).Wrote? ==>
      SlotRows(AfterInsert(t, id, k), Slot(k.userId, k.project, k.agent)) == {id}
  {
    if InsertOutcome(t, id, k).Wrote? {
      InsertInSlot(t, id, k, Slot(k.userId, k.project, k.agent));
    }
  }

  lemma CallInSlot(h: string -> string, t: Table, c: Call, slot: Slot, holder: Holder)
    requires SlotHolds(h, t, slot, holder)
    ensures SlotHolds(h, After(h, t, c), slot, NextHolder(h, t, c, slot, holder))
  {
    hide InsertOutcome, SlotRows, Refuses;
    SlotRowIsRow(t, slot);
    if c.Issue? {
      var k := NewKey(h, c);
      if k.project != "" {
        RefusedInsert(t, c.id, k);
      }
      if InsertOutcome(t, c.id, k).Wrote? {
        InsertInSlot(t, c.id, k, slot);
        hide AfterInsert;
        SlotRowIsRow(AfterInsert(t, c.id, k), slot);
      }
    } else if c.id in t {
      RevokeInSlot(t, c.id, slot);
      SlotRowIsRow(AfterRevoke(t, c.id), slot);
    }
  }

  lemma RevokeInSlot(t: Table, id: string, slot: Slot)
    requires id in t
    ensures SlotRows(AfterRevoke(t, id), slot) == SlotRows(t, slot)
  {
  }

  lemma SlotRowIsRow(t: Table, slot: Slot)
    ensures forall id :: id in SlotRows(t, slot) <==> id in t && Occupies(t[id], slot)
  {
  }

  /** Only the newest key of a slot can validate: that key itself, unless the hash collides. */
  lemma OnlyNewestKeyValidates(h: string -> string, calls: seq<Call>, slot: Slot, raw: string, now: int, id: string)
    requires var t := RunFrom(h, map[], calls);
      Finds(t, h(raw), now, id) && Occupies(t[id], slot)
    ensures Newest(h, calls, slot).Holder? && h(raw) == h(Newest(h, calls, slot).raw)
    ensures (forall x, y :: h(x) == h(y) ==> x == y) ==> raw == Newest(h, calls, slot).raw
  {
    hide RunFrom, Newest;
    NewestKeyValidatesExactly(h, calls, slot, raw, now);
  }

  /** A raw key validates on a slot, after any run, exactly when it has the hash of the newest key issued
      there (so is that key, unless the hash collides), that key was not revoked since, and it has not
      expired; and then it speaks for the slot's user and project in the role of that issue. */
  lemma NewestKeyValidatesExactly(h: string -> string, calls: seq<Call>, slot: Slot, raw: string, now: int)
    ensures var (t, n) := (RunFrom(h, map[], calls), Newest(h, calls, slot));
      (exists id :: Finds(t, h(raw), now, id) && Occupies(t[id], slot)) <==>
        n.Holder? && h(raw) == h(n.raw) && !n.revoked && (n.expiresAt.Never? || n.expiresAt.time > now)
    ensures var (t, n) := (RunFrom(h, map[], calls), Newest(h, calls, slot));
      forall id :: Finds(t, h(raw), now, id) && Occupies(t[id], slot) ==>
        n.Holder? && id == n.id && CallerOf(t[id]) == Caller(slot.userId, n.role, slot.project)
  {
    hide RunFrom, Newest;
    var (t, n) := (RunFrom(h, map[], calls), Newest(h, calls, slot));
    SlotHoldsLastIssued(h, calls, slot);
    SlotRowIsRow(t, slot);
    if n.Holder? {
      assert n.id in SlotRows(t, slot);
      assert Finds(t, h(raw), now, n.id) <==>
        h(raw) == h(n.raw) && !n.revoked && (n.expiresAt.Never? || n.expiresAt.time > now);
    }
  }

  // ----- Revocation is final for an unbound key ------------------------------------------------

  /** The key is held by a revoked row with no project. */
  ghost predicate DeadUnbound(t: Table, hash: string) {
    exists id :: id in t && t[id].hash == hash && t[id].project == "" && t[id].revoked
  }

  lemma CallKeepsDead(h: string -> string, t: Table, c: Call, hash: string)
    requires DeadUnbound(t, hash)
    ensures DeadUnbound(After(h, t, c), hash)
  {
    var id :| id in t && t[id].hash == hash && t[id].project == "" && t[id].revoked;
    var t' := After(h, t, c);
    assert id in t' && t'[id] == t[id] by {
      if c.Issue? {
        var k := NewKey(h, c);
        if k.project != "" {
          assert id in t - SlotRows(t, Slot(k.userId, k.project, k.agent));
        }
      }
    }
  }

  lemma {:induction false} RunKeepsDead(h: string -> string, t: Table, calls: seq<Call>, hash: string)
    requires DeadUnbound(t, hash)
    ensures DeadUnbound(RunFrom(h, t, calls), hash)
    decreases |calls|
  {
    hide DeadUnbound, After;
    if calls != [] {
      RunKeepsDead(h, t, calls[..|calls| - 1], hash);
      CallKeepsDead(h, RunFrom(h, t, calls[..|calls| - 1]), calls[|calls| - 1], hash);
    }
  }

  /** A revoked unbound key never validates again, whatever is issued or revoked afterwards, the same
      raw value included. */
  lemma RevokedUnboundNeverValidates(h: string -> string, t: Table, calls: seq<Call>, raw: string, now: int, id: string)
    requires Unique(t) && DeadUnbound(t, h(raw))
    ensures !Finds(RunFrom(h, t, calls), h(raw), now, id)
  {
    hide RunFrom;
    RunKeepsUnique(h, t, calls);
    RunKeepsDead(h, t, calls, h(raw));
    var dead :| dead in RunFrom(h, t, calls) && RunFrom(h, t, calls)[dead].hash == h(raw)
      && RunFrom(h, t, calls)[dead].project == "" && RunFrom(h, t, calls)[dead].revoked;
  }

  /** A project key, by contrast, is revived by its next issue: the slot is rotated in place, and
      revocation of the old row does not outlive it. */
  lemma ReissueRevivesSlot(h: string -> string, t: Table, id: string, slot: Slot, raw: string, role: string, now: int)
    requires Unique(t) && slot.project != "" && SlotRows(t, slot) == {id} && id in t && t[id].revoked
    requires t[id].hash == h(raw)
    ensures Finds(After(h, t, Issue(id, slot, raw, role, Never, true)), h(raw), now, id)
  {
    var c := Issue(id, slot, raw, role, Never, true);
    var others := t - SlotRows(t, slot);
    assert id !in others;
    assert id in SlotRows(t, slot);
    assert !HashTaken(others, h(raw));
    InsertInSlot(t, id, NewKey(h, c), slot);
  }
}
