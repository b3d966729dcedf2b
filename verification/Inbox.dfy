/** Flushing the staged review signals to the server ledger behind a high-water mark
    (internal/cli/cmd_story_review.go, internal/workstate/inbox.go). */
module Inbox {

  datatype Json = Num(n: int) | Other(text: string)

  /** A staged message; the payload is empty when it was empty or would not parse as an object. */
  datatype Message = Message(seqNo: int, kind: string, body: string, payload: map<string, Json>)

  /** A ledger row, with the number of the message it was written from. */
  datatype Entry = Entry(from: int, kind: string, body: string, payload: map<string, Json>)

  /** The payload written: a local_ref, then the message's own keys over it. */
  function EntryOf(m: Message): Entry {
    Entry(m.seqNo, m.kind, m.body, map["local_ref" := Num(m.seqNo)] + m.payload)
  }

  /** An entry is the message under its number; it names it in local_ref exactly when the message's own
      payload does not say otherwise: its keys are copied over the reference. */
  lemma LocalRefExactly(m: Message)
    ensures var e := EntryOf(m); e.from == m.seqNo && e.kind == m.kind && e.body == m.body
    ensures EntryOf(m).payload.Keys == m.payload.Keys + {"local_ref"}
    ensures "local_ref" in EntryOf(m).payload
    ensures EntryOf(m).payload["local_ref"] == Num(m.seqNo) <==>
      ("local_ref" in m.payload ==> m.payload["local_ref"] == Num(m.seqNo))
    ensures forall k :: k in m.payload ==> k in EntryOf(m).payload && EntryOf(m).payload[k] == m.payload[k]
  {
  }

  predicate Increasing(inbox: seq<Message>) {
    forall i, j :: 0 <= i < j < |inbox| ==> inbox[i].seqNo < inbox[j].seqNo
  }

  /** Which appends the server takes, by message number. */
  type Luck = int -> bool

  /** What a pass over the messages writes. */
  function Written(msgs: seq<Message>, mark: int, up: Luck): seq<Entry> {
    if msgs == [] then []
    else
      var (init, m) := (msgs[..|msgs| - 1], msgs[|msgs| - 1]);
      Written(init, mark, up) + if m.seqNo > mark && up(m.seqNo) then [EntryOf(m)] else []
  }

  /** The greatest number among a mark and the messages'. */
  function Newest(msgs: seq<Message>, mark: int): int {
    if msgs == [] then mark
    else
      var max := Newest(msgs[..|msgs| - 1], mark);
      if msgs[|msgs| - 1].seqNo > max then msgs[|msgs| - 1].seqNo else max
  }

  lemma {:induction false} NewestBounds(msgs: seq<Message>, mark: int, last: int)
    requires mark <= last && forall i :: 0 <= i < |msgs| ==> msgs[i].seqNo <= last
    ensures mark <= Newest(msgs, mark) <= last
    ensures forall i :: 0 <= i < |msgs| ==> msgs[i].seqNo <= Newest(msgs, mark)
    decreases |msgs|
  {
    if msgs != [] {
      NewestBounds(msgs[..|msgs| - 1], mark, last);
    }
  }

  /** One more message in a pass. */
  lemma OneMore(msgs: seq<Message>, i: nat, mark: int, up: Luck)
    requires i < |msgs|
    ensures var n := msgs[i].seqNo;
      && Written(msgs[..i + 1], mark, up)
      == Written(msgs[..i], mark, up) + (if n > mark && up(n) then [EntryOf(msgs[i])] else [])
      && Newest(msgs[..i + 1], mark) == (if n > Newest(msgs[..i], mark) then n else Newest(msgs[..i], mark))
  {
    var front := msgs[..i + 1];
    assert front[..|front| - 1] == msgs[..i] && front[|front| - 1] == msgs[i];
  }

  lemma NothingRead(mark: int, up: Luck)
    ensures Written([], mark, up) == [] && Newest([], mark) == mark
  {
  }

  /** The store and the ledger; `last` is the last number the store has given out. */
  datatype State = State(inbox: seq<Message>, mark: int, ledger: seq<Entry>, last: int)

  /** A message is staged, or a flush runs: `readable` its reads, `up` its appends, `marked` its mark
      update. */
  datatype Event = Stage(gap: nat, kind: string, body: string, payload: map<string, Json>)
    | Flush(readable: bool, up: Luck, marked: bool)

  function Step(s: State, e: Event): State {
    match e
    case Stage(gap, kind, body, payload) =>
      var n := s.last + 1 + gap;
      s.(inbox := s.inbox + [Message(n, kind, body, payload)], last := n)
    case Flush(readable, up, marked) =>
      if !readable then s
      else s.(ledger := s.ledger + Written(s.inbox, s.mark, up), mark := if marked then Newest(s.inbox, s.mark)
        else s.mark)
  }

  class ReviewLoop {
    var state: State

    /** InboxAppend: the next autoincrement number, however many other stories took in between. */
    method InboxAppend(gap: nat, kind: string, body: string, payload: map<string, Json>) returns (n: int)
      modifies this
      ensures state == Step(old(state), Stage(gap, kind, body, payload))
      ensures n == state.last > old(state).last && state.ledger == old(state).ledger && state.mark == old(state).mark
      ensures state.inbox == old(state).inbox + [Message(n, kind, body, payload)]
    {
      n := state.last + 1 + gap;
      state := state.(inbox := state.inbox + [Message(n, kind, body, payload)], last := n);
    }

    /** AdvanceInboxFlush: raise the mark, never lower it. */
    method AdvanceInboxFlush(seqNo: int, marked: bool)
      modifies this
      ensures state == old(state).(mark := if marked && seqNo > old(state).mark then seqNo else old(state).mark)
    {
      if marked && seqNo > state.mark {
        state := state.(mark := seqNo);
      }
    }

    /** flushLocalInbox.  An append that fails is reported and not remembered. */
    method FlushLocalInbox(readable: bool, up: Luck, marked: bool)
      modifies this
      ensures state == Step(old(state), Flush(readable, up, marked))
    {
      hide Written, Newest, EntryOf;
      if !readable {
        return;
      }
      var claimed := state.mark;
      var msgs := state.inbox;
      var flushed, maxSeq := 0, claimed;
      NothingRead(claimed, up);
      assert msgs[..0] == [];
      for i := 0 to |msgs|
        invariant flushed >= 0
        invariant state == old(state).(ledger := old(state).ledger + Written(msgs[..i], claimed, up))
        invariant maxSeq == Newest(msgs[..i], claimed) >= claimed
        invariant flushed == 0 ==> maxSeq == claimed
      {
        var m := msgs[i];
        OneMore(msgs, i, claimed, up);
        if m.seqNo > claimed {
          if up(m.seqNo) {
            state := state.(ledger := state.ledger + [EntryOf(m)]);
          }
          flushed := flushed + 1;
          if m.seqNo > maxSeq {
            maxSeq := m.seqNo;
          }
        }
      }
      assert msgs[..|msgs|] == msgs;
      if flushed > 0 {
        AdvanceInboxFlush(maxSeq, marked);
      }
    }
  }

  // ----- Runs ----------------------------------------------------------------------------------

  function RunFrom(s: State, events: seq<Event>): State {
    if events == [] then s else Step(RunFrom(s, events[..|events| - 1]), events[|events| - 1])
  }

  const EMPTY := State([], 0, [], 0)

  ghost predicate Ok(s: State) {
    && Increasing(s.inbox) && 0 <= s.mark <= s.last
    && (forall i :: 0 <= i < |s.inbox| ==> 0 < s.inbox[i].seqNo <= s.last)
  }

  lemma StepKeepsOk(s: State, e: Event)
    requires Ok(s)
    ensures Ok(Step(s, e)) && s.mark <= Step(s, e).mark
  {
    hide Written, Newest;
    NewestBounds(s.inbox, s.mark, s.last);
  }

  lemma {:induction false} RunKeepsOk(s: State, events: seq<Event>)
    requires Ok(s)
    ensures Ok(RunFrom(s, events)) && s.mark <= RunFrom(s, events).mark
    decreases |events|
  {
    hide Ok, Step;
    if events != [] {
      RunKeepsOk(s, events[..|events| - 1]);
      StepKeepsOk(RunFrom(s, events[..|events| - 1]), events[|events| - 1]);
    }
  }

  /** The messages up to a mark, as ledger entries in order. */
  function Upto(msgs: seq<Message>, mark: int): seq<Entry> {
    if msgs == [] then []
    else
      var (init, m) := (msgs[..|msgs| - 1], msgs[|msgs| - 1]);
      Upto(init, mark) + if m.seqNo <= mark then [EntryOf(m)] else []
  }

  ghost predicate AllUp(e: Event) {
    e.Flush? ==> e.marked && forall n :: e.up(n)
  }

  lemma {:induction false} UptoNewest(msgs: seq<Message>, mark: int, max: int, up: Luck)
    requires Increasing(msgs) && max >= mark && forall n :: up(n)
    requires forall i :: 0 <= i < |msgs| ==> msgs[i].seqNo <= max
    ensures Upto(msgs, max) == Upto(msgs, mark) + Written(msgs, mark, up)
    decreases |msgs|
  {
    hide EntryOf;
    if msgs != [] {
      var (init, m) := (msgs[..|msgs| - 1], msgs[|msgs| - 1]);
      UptoNewest(init, mark, max, up);
      assert m.seqNo <= max && up(m.seqNo);
      if m.seqNo <= mark {
        NothingNew(init, mark, up);
      }
    }
  }

  lemma {:induction false} NothingNew(msgs: seq<Message>, mark: int, up: Luck)
    requires forall i :: 0 <= i < |msgs| ==> msgs[i].seqNo <= mark
    ensures Written(msgs, mark, up) == []
    decreases |msgs|
  {
    if msgs != [] {
      NothingNew(msgs[..|msgs| - 1], mark, up);
    }
  }

  lemma UptoStage(s: State, e: Event)
    requires Ok(s) && e.Stage?
    ensures Upto(Step(s, e).inbox, s.mark) == Upto(s.inbox, s.mark)
  {
    var inbox := Step(s, e).inbox;
    assert inbox[..|inbox| - 1] == s.inbox;
  }

  /** Exactly once: over every sequence of staged messages and flushes whose appends and mark updates
      succeed, the ledger is the messages up to the mark, each once, in order, and no other. */
  lemma {:induction false} ExactlyOnce(events: seq<Event>)
    requires forall i :: 0 <= i < |events| ==> AllUp(events[i])
    ensures var s := RunFrom(EMPTY, events); s.ledger == Upto(s.inbox, s.mark)
    decreases |events|
  {
    hide Written, Newest, Upto;
    if events == [] {
      assert Upto([], 0) == [] by { NoEntries(); }
    } else {
      var init, e := events[..|events| - 1], events[|events| - 1];
      var s := RunFrom(EMPTY, init);
      ExactlyOnce(init);
      RunKeepsOk(EMPTY, init);
      assert AllUp(e);
      if e.Stage? {
        UptoStage(s, e);
      } else if e.readable {
        NewestBounds(s.inbox, s.mark, s.last);
        UptoNewest(s.inbox, s.mark, Newest(s.inbox, s.mark), e.up);
      }
    }
  }

  lemma NoEntries()
    ensures Upto([], 0) == []
  {
  }

  // ----- When appends or mark updates fail -----------------------------------------------------

  /** How often message n is in the ledger. */
  function Count(ledger: seq<Entry>, n: int): nat {
    if ledger == [] then 0 else Count(ledger[..|ledger| - 1], n) + if ledger[|ledger| - 1].from == n then 1 else 0
  }

  lemma {:induction false} CountAppend(a: seq<Entry>, b: seq<Entry>, n: int)
    ensures Count(a + b, n) == Count(a, n) + Count(b, n)
    decreases |b|
  {
    if b == [] {
      assert a + b == a;
    } else {
      assert (a + b)[..|a + b| - 1] == a + b[..|b| - 1];
      CountAppend(a, b[..|b| - 1], n);
    }
  }

  ghost predicate Staged(msgs: seq<Message>, n: int) {
    exists i :: 0 <= i < |msgs| && msgs[i].seqNo == n
  }

  lemma StagedLast(msgs: seq<Message>, n: int)
    requires Increasing(msgs) && msgs != []
    ensures var (init, m) := (msgs[..|msgs| - 1], msgs[|msgs| - 1]);
      && (Staged(msgs, n) <==> Staged(init, n) || m.seqNo == n)
      && (Staged(init, n) ==> m.seqNo != n)
      && Increasing(init)
  {
    var init := msgs[..|msgs| - 1];
    forall i | 0 <= i < |msgs| && msgs[i].seqNo == n ensures i < |init| ==> init[i].seqNo == n {
    }
  }

  /** One pass writes a message once, if it is above the mark and its append succeeds, else not at all. */
  lemma {:induction false} PassCount(msgs: seq<Message>, mark: int, up: Luck, n: int)
    requires Increasing(msgs)
    ensures Count(Written(msgs, mark, up), n) == if n > mark && up(n) && Staged(msgs, n) then 1 else 0
    decreases |msgs|
  {
    hide Increasing, Staged, Count;
    if msgs == [] {
      NeitherStagedNorCounted(n);
    } else {
      var (init, m) := (msgs[..|msgs| - 1], msgs[|msgs| - 1]);
      StagedLast(msgs, n);
      PassCount(init, mark, up, n);
      CountAppend(Written(init, mark, up), if m.seqNo > mark && up(m.seqNo) then [EntryOf(m)] else [], n);
      OneEntry(EntryOf(m), n);
    }
  }

  lemma NeitherStagedNorCounted(n: int)
    ensures !Staged([], n) && Count([], n) == 0
  {
  }

  lemma OneEntry(e: Entry, n: int)
    ensures Count([e], n) == (if e.from == n then 1 else 0) && Count([], n) == 0
  {
    assert [e][..0] == [];
  }

  lemma {:induction false} UptoCount(msgs: seq<Message>, mark: int, n: int)
    requires Increasing(msgs)
    ensures Count(Upto(msgs, mark), n) == if n <= mark && Staged(msgs, n) then 1 else 0
    decreases |msgs|
  {
    hide Increasing, Staged, Count;
    if msgs == [] {
      NeitherStagedNorCounted(n);
    } else {
      var (init, m) := (msgs[..|msgs| - 1], msgs[|msgs| - 1]);
      StagedLast(msgs, n);
      UptoCount(init, mark, n);
      CountAppend(Upto(init, mark), if m.seqNo <= mark then [EntryOf(m)] else [], n);
      OneEntry(EntryOf(m), n);
    }
  }

  /** The same by number: a message is in the ledger once if it is staged at or below the mark, and
      otherwise not at all. */
  lemma ExactlyOnceByNumber(events: seq<Event>, n: int)
    requires forall i :: 0 <= i < |events| ==> AllUp(events[i])
    ensures var s := RunFrom(EMPTY, events); Count(s.ledger, n) == if n <= s.mark && Staged(s.inbox, n) then 1 else 0
  {
    hide AllUp, Count, Staged, Upto, RunFrom;
    var s := RunFrom(EMPTY, events);
    ExactlyOnce(events);
    RunKeepsOk(EMPTY, events);
    UptoCount(s.inbox, s.mark, n);
  }

  /** The entry is that of a message at or below the mark. */
  ghost predicate OfMessage(msgs: seq<Message>, mark: int, e: Entry) {
    exists k :: 0 <= k < |msgs| && msgs[k].seqNo <= mark && EntryOf(msgs[k]) == e
  }

  lemma OfMessageLater(msgs: seq<Message>, mark: int, e: Entry)
    requires msgs != [] && OfMessage(msgs[..|msgs| - 1], mark, e)
    ensures OfMessage(msgs, mark, e) && e.from <= mark
    ensures Increasing(msgs) ==> e.from < msgs[|msgs| - 1].seqNo
  {
    var init := msgs[..|msgs| - 1];
    var k :| 0 <= k < |init| && init[k].seqNo <= mark && EntryOf(init[k]) == e;
    assert msgs[k] == init[k];
  }

  lemma {:induction false} UptoInOrder(msgs: seq<Message>, mark: int) returns (es: seq<Entry>)
    requires Increasing(msgs)
    ensures es == Upto(msgs, mark)
    ensures forall i, j :: 0 <= i < j < |es| ==> es[i].from < es[j].from
    ensures forall i :: 0 <= i < |es| ==> OfMessage(msgs, mark, es[i])
    decreases |msgs|
  {
    hide OfMessage;
    es := [];
    if msgs != [] {
      var n := |msgs| - 1;
      es := UptoInOrder(msgs[..n], mark);
      forall i | 0 <= i < |es| ensures OfMessage(msgs, mark, es[i]) && es[i].from < msgs[n].seqNo {
        OfMessageLater(msgs, mark, es[i]);
      }
      if msgs[n].seqNo <= mark {
        LastOfMessages(msgs, mark);
        es := es + [EntryOf(msgs[n])];
      }
    }
  }

  lemma LastOfMessages(msgs: seq<Message>, mark: int)
    requires msgs != [] && msgs[|msgs| - 1].seqNo <= mark
    ensures OfMessage(msgs, mark, EntryOf(msgs[|msgs| - 1]))
  {
  }

  /** And the ledger has them in the order they were staged, each with its message's kind, body and payload
      over the reference. */
  lemma LedgerInOrder(events: seq<Event>, i: nat)
    requires forall k :: 0 <= k < |events| ==> AllUp(events[k])
    requires i < |RunFrom(EMPTY, events).ledger|
    ensures var s := RunFrom(EMPTY, events);
      && (forall j :: i < j < |s.ledger| ==> s.ledger[i].from < s.ledger[j].from)
      && exists k :: 0 <= k < |s.inbox| && var m := s.inbox[k];
        s.ledger[i] == Entry(m.seqNo, m.kind, m.body, map["local_ref" := Num(m.seqNo)] + m.payload)
  {
    hide AllUp, Upto, RunFrom;
    var s := RunFrom(EMPTY, events);
    ExactlyOnce(events);
    RunKeepsOk(EMPTY, events);
    var es := UptoInOrder(s.inbox, s.mark);
    assert OfMessage(s.inbox, s.mark, s.ledger[i]);
  }

  /** A flush, whatever fails in it, writes only messages above the mark, each at most once: after a
      failed mark update only those can be written again. */
  lemma FlushWritesAboveMark(s: State, e: Event, n: int)
    requires Ok(s) && e.Flush?
    ensures Count(Step(s, e).ledger, n) <= Count(s.ledger, n) + 1
    ensures n <= s.mark ==> Count(Step(s, e).ledger, n) == Count(s.ledger, n)
  {
    hide Written, Count, Newest, Increasing;
    if e.readable {
      PassCount(s.inbox, s.mark, e.up, n);
      CountAppend(s.ledger, Written(s.inbox, s.mark, e.up), n);
    }
  }

  lemma {:induction false} SettledForGood(s: State, events: seq<Event>, n: int)
    requires Ok(s) && n <= s.mark
    ensures Count(RunFrom(s, events).ledger, n) == Count(s.ledger, n)
    decreases |events|
  {
    hide Ok, Count, Written, Newest;
    if events != [] {
      var init, e := events[..|events| - 1], events[|events| - 1];
      SettledForGood(s, init, n);
      RunKeepsOk(s, init);
      if e.Flush? {
        FlushWritesAboveMark(RunFrom(s, init), e, n);
      }
    }
  }

  /** A flush that raises the mark settles every message it read, for every later run: written once
      more if its append succeeded, and otherwise never retried.  (The source's comment promises that a
      later run flushes a failed row again; the mark has passed it.) */
  lemma FlushSettlesExactly(s: State, up: Luck, later: seq<Event>, i: nat)
    requires Ok(s) && i < |s.inbox| && s.inbox[i].seqNo > s.mark
    ensures var n := s.inbox[i].seqNo;
      Count(RunFrom(Step(s, Flush(true, up, true)), later).ledger, n) == Count(s.ledger, n) + if up(n) then 1 else 0
  {
    hide Count, Written;
    var n := s.inbox[i].seqNo;
    var s' := Step(s, Flush(true, up, true));
    StepKeepsOk(s, Flush(true, up, true));
    NewestBounds(s.inbox, s.mark, s.last);
    assert Staged(s.inbox, n);
    PassCount(s.inbox, s.mark, up, n);
    CountAppend(s.ledger, Written(s.inbox, s.mark, up), n);
    SettledForGood(s', later, n);
  }

  /** So it happens, in every run that begins like this: a message is staged, its append fails and the mark
      is raised; the message is then never in the ledger. */
  lemma FailedAppendIsLost(later: seq<Event>)
    ensures var s := Step(Step(EMPTY, Stage(0, "k", "b", map[])), Flush(true, _ => false, true));
      s.inbox == [Message(1, "k", "b", map[])] && Count(RunFrom(s, later).ledger, 1) == 0
  {
    hide Count, RunFrom;
    var staged := Step(EMPTY, Stage(0, "k", "b", map[]));
    assert staged.inbox == [Message(1, "k", "b", map[])];
    FlushSettlesExactly(staged, _ => false, later, 0);
    NeitherStagedNorCounted(1);
  }

  /** And a message's own local_ref replaces the reference. */
  lemma ReferenceIsOverridden(m: Message, text: string)
    requires m.payload == map["local_ref" := Other(text)]
    ensures EntryOf(m).payload == map["local_ref" := Other(text)]
  {
  }
}
