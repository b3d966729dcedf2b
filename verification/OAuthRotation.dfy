/** Rotation of refresh tokens over whole runs of the protocol: when a lineage has one live token, and
    the runs in which it has two (internal/auth/oauth_server.go). */
module OAuthRotation {
  import opened OAuthStore
  import opened OAuthProtocol
  import opened OAuthGrants

  // ----- One live token a lineage --------------------------------------------------------------

  ghost predicate InLineage(issued: seq<Issued>, token: string, code: string) {
    exists i :: 0 <= i < |issued| && issued[i].token == token && RootOf(issued, i) == code
  }

  /** Who can still use a lineage: a token in the table, or a request about to store one. */
  datatype Holder = Live(token: string) | Minting(id: nat)

  ghost predicate Holds(s: State, h: Holder, code: string) {
    match h
    case Live(t) => t in s.tables.refresh && InLineage(s.issued, t, code)
    case Minting(id) =>
      && id in s.threads
      && var th := s.threads[id];
      || (th.CodeMarked? && th.req.code == code)
      || (th.RefreshDeleted? && InLineage(s.issued, th.token, code))
  }

  ghost predicate OneHolder(s: State) {
    forall h, h', code :: Holds(s, h, code) && Holds(s, h', code) ==> h == h'
  }

  ghost predicate DistinctTokens(issued: seq<Issued>) {
    forall i, j :: 0 <= i < j < |issued| ==> issued[i].token != issued[j].token
  }

  lemma {:induction false} RootStable(issued: seq<Issued>, e: Issued, i: nat)
    requires DistinctTokens(issued + [e]) && i < |issued|
    ensures RootOf(issued + [e], i) == RootOf(issued, i)
    decreases i
  {
    var longer := issued + [e];
    assert forall k :: 0 <= k < |issued| ==> longer[k] == issued[k];
    match issued[i].parent
    case OfCode(_) =>
    case OfToken(o) =>
      if exists j: nat :: j < i && issued[j].token == o {
        var j: nat :| j < i && issued[j].token == o && RootOf(issued, i) == RootOf(issued, j);
        assert longer[j].token == o;
        var k: nat :| k < i && longer[k].token == o && RootOf(longer, i) == RootOf(longer, k);
        assert j == k;
        RootStable(issued, e, j);
      }
  }

  lemma LineageStable(issued: seq<Issued>, e: Issued, token: string, code: string)
    requires DistinctTokens(issued + [e]) && token != e.token
    ensures InLineage(issued + [e], token, code) <==> InLineage(issued, token, code)
  {
    hide RootOf;
    var longer := issued + [e];
    if InLineage(longer, token, code) {
      var i :| 0 <= i < |longer| && longer[i].token == token && RootOf(longer, i) == code;
      RootStable(issued, e, i);
    }
    if InLineage(issued, token, code) {
      var i :| 0 <= i < |issued| && issued[i].token == token && RootOf(issued, i) == code;
      RootStable(issued, e, i);
      assert longer[i].token == token;
    }
  }

  /** The lineage a token issued for this parent belongs to. */
  ghost predicate Inherits(issued: seq<Issued>, parent: Parent, code: string) {
    match parent
    case OfCode(c) => code == c
    case OfToken(o) => InLineage(issued, o, code)
  }

  /** The new entry has its parent's root. */
  lemma LineageOfNew(issued: seq<Issued>, e: Issued, code: string)
    requires DistinctTokens(issued + [e]) && InLineage(issued + [e], e.token, code)
    requires e.parent.OfToken? ==> exists j :: 0 <= j < |issued| && issued[j].token == e.parent.token
    ensures Inherits(issued, e.parent, code)
  {
    var longer, n := issued + [e], |issued|;
    var i :| 0 <= i < |longer| && longer[i].token == e.token && RootOf(longer, i) == code;
    assert longer[n] == e && i == n;
    if e.parent.OfToken? {
      var o := e.parent.token;
      var k :| 0 <= k < n && issued[k].token == o;
      assert longer[k].token == o;
      var j: nat :| j < n && longer[j].token == o && RootOf(longer, n) == RootOf(longer, j);
      RootStable(issued, e, j);
    }
  }

  /** If every holder after a step held before it, but for one that took over from another, a lineage
      that had at most one holder still has. */
  lemma HoldersTransfer(s: State, s': State, to: Holder, from: Holder)
    requires OneHolder(s)
    requires forall h, code :: Holds(s', h, code) ==> Holds(s, if h == to then from else h, code)
    requires to == from || forall code :: !Holds(s', from, code)
    ensures OneHolder(s')
  {
    hide Holds;
    forall h, h', code | Holds(s', h, code) && Holds(s', h', code) ensures h == h' {
      assert Holds(s, if h == to then from else h, code);
      assert Holds(s, if h' == to then from else h', code);
    }
  }

  /** A lineage's code is used, so an unused code has no lineage. */
  lemma LineageIsUsed(s: State, token: string, code: string)
    requires LogOk(s) && InLineage(s.issued, token, code)
    ensures Used(s, code)
  {
    hide EntryOk, RootOf;
    var i :| 0 <= i < |s.issued| && s.issued[i].token == token && RootOf(s.issued, i) == code;
    RootGrants(s, i);
  }

  lemma UnusedHasNoHolder(cfg: Config, s: State, h: Holder, code: string)
    requires Inv(cfg, s) && Redeemable(s.tables, code)
    ensures !Holds(s, h, code)
  {
    hide InLineage, LogOk, CodesOk, RootsOk, OneRedeemer;
    if Holds(s, h, code) {
      match h
      case Live(t) => LineageIsUsed(s, t, code);
      case Minting(id) =>
        assert ThreadOk(cfg, s, s.threads[id]);
        if s.threads[id].RefreshDeleted? {
          LineageIsUsed(s, s.threads[id].token, code);
        }
    }
  }

  lemma MarkKeepsOneHolder(cfg: Config, s: State, id: nat, th: Thread, up: bool)
    requires Inv(cfg, s) && OneHolder(s) && id in s.threads && s.threads[id] == th && th.CodeFetched?
    ensures OneHolder(MarkCode(s, id, th, up))
  {
    hide InLineage, Inv;
    var s' := MarkCode(s, id, th, up);
    if s'.threads[id].Refused? {
      HoldersTransfer(s, s', Minting(id), Minting(id));
    } else {
      var code := th.req.code;
      forall h, h', c | Holds(s', h, c) && Holds(s', h', c) ensures h == h' {
        if c == code {
          UnusedHasNoHolder(cfg, s, h, code);
          UnusedHasNoHolder(cfg, s, h', code);
        } else {
          assert Holds(s, h, c) && Holds(s, h', c);
        }
      }
    }
  }

  /** After a token was stored: what the other tokens hold is what they held. */
  lemma StoredHolders(cfg: Config, s: State, s': State, id: nat, token: string, parent: Parent, row: Issued)
    requires DistinctTokens(s.issued + [row]) && row.token == token && row.parent == parent
    requires parent.OfToken? ==> exists j :: 0 <= j < |s.issued| && s.issued[j].token == parent.token
    requires s'.issued == s.issued + [row]
    requires s'.tables.refresh.Keys == s.tables.refresh.Keys + {token} && token !in s.tables.refresh
    requires id in s'.threads && !s'.threads[id].CodeMarked? && !s'.threads[id].RefreshDeleted?
    requires s'.threads == s.threads[id := s'.threads[id]]
    requires forall j :: j in s.threads && s.threads[j].RefreshDeleted? ==> s.threads[j].token != token
    ensures forall h, c :: Holds(s', h, c) && h != Live(token) ==> Holds(s, h, c)
    ensures forall c :: Holds(s', Live(token), c) ==> Inherits(s.issued, parent, c)
    ensures forall c :: !Holds(s', Minting(id), c)
  {
    hide InLineage, RootOf;
    forall h, c | Holds(s', h, c) && h != Live(token) ensures Holds(s, h, c) {
      match h
      case Live(t) => LineageStable(s.issued, row, t, c);
      case Minting(j) =>
        if s'.threads[j].RefreshDeleted? {
          LineageStable(s.issued, row, s.threads[j].token, c);
        }
    }
    forall c | Holds(s', Live(token), c)
      ensures Inherits(s.issued, parent, c)
    {
      LineageOfNew(s.issued, row, c);
    }
  }

  lemma ReplyKeepsOneHolder(cfg: Config, s: State, id: nat, th: Thread, up: bool, minted: bool, drawn: string)
    requires Inv(cfg, s) && OneHolder(s) && id in s.threads && s.threads[id] == th
      && (th.CodeMarked? || th.RefreshDeleted?)
    requires forall i :: 0 <= i < |s.issued| ==> s.issued[i].token != drawn
    ensures OneHolder(RunThread(cfg, s, id, th, up, minted, drawn))
  {
    hide InLineage, RootOf, OneHolder, ThreadsOk, LogOk, RootsOk, CodesOk, OneRedeemer;
    var s' := RunThread(cfg, s, id, th, up, minted, drawn);
    assert ThreadOk(cfg, s, th) by { IsOk(cfg, s, id); }
    if s'.issued == s.issued {
      HoldersTransfer(s, s', Minting(id), Minting(id));
    } else {
      var row := s'.issued[|s.issued|];
      assert s'.issued == s.issued + [row];
      assert DistinctTokens(s'.issued) by { LogIsDistinct(s); }
      DeletedTokensWereIssued(cfg, s);
      StoredHolders(cfg, s, s', id, drawn, row.parent, row);
      HoldersTransfer(s, s', Live(drawn), Minting(id));
    }
  }

  lemma IsOk(cfg: Config, s: State, id: nat)
    requires ThreadsOk(cfg, s) && id in s.threads
    ensures ThreadOk(cfg, s, s.threads[id])
  {
  }

  lemma LogIsDistinct(s: State)
    requires LogOk(s)
    ensures DistinctTokens(s.issued)
  {
  }

  lemma DeletedTokensWereIssued(cfg: Config, s: State)
    requires ThreadsOk(cfg, s)
    ensures forall j :: j in s.threads && s.threads[j].RefreshDeleted? ==>
      exists k :: 0 <= k < |s.issued| && s.issued[k].token == s.threads[j].token
  {
    forall j | j in s.threads && s.threads[j].RefreshDeleted?
      ensures exists k :: 0 <= k < |s.issued| && s.issued[k].token == s.threads[j].token
    {
      var th := s.threads[j];
      assert ThreadOk(cfg, s, th);
      var k :| IsIssued(s.issued, k, th.token, th.row.userId, th.row.clientId, th.row.scope);
      assert s.issued[k].token == th.token;
    }
  }

  /** Rotation: a delete leaves a lineage with one holder exactly when it removed the row, or when the
      lineage had no holder left. */
  lemma DeleteKeepsOneHolderExactly(cfg: Config, s: State, id: nat, th: Thread, up: bool)
    requires Inv(cfg, s) && OneHolder(s) && id in s.threads && s.threads[id] == th && th.RefreshFetched?
    ensures OneHolder(DeleteOld(s, id, th, up)) <==>
      (up && th.token in s.tables.refresh) || forall h, code ::
        InLineage(s.issued, th.token, code) ==> !Holds(s, h, code)
  {
    hide InLineage, Inv;
    var s' := DeleteOld(s, id, th, up);
    if up && th.token in s.tables.refresh {
      HoldersTransfer(s, s', Minting(id), Live(th.token));
    } else if forall h, code :: InLineage(s.issued, th.token, code) ==> !Holds(s, h, code) {
      forall h, h', code | Holds(s', h, code) && Holds(s', h', code) ensures h == h' {
        if h != Minting(id) { assert Holds(s, h, code); }
        if h' != Minting(id) { assert Holds(s, h', code); }
      }
    } else {
      var h, code :| InLineage(s.issued, th.token, code) && Holds(s, h, code);
      assert Holds(s', Minting(id), code);
      assert h != Minting(id) && Holds(s', h, code);
    }
  }

  /** The event is not a delete of a row that is already gone, nor one the database refuses. */
  predicate CleanDelete(s: State, e: Event) {
    e.Run? && e.id in s.threads && s.threads[e.id].RefreshFetched? ==> e.up && s.threads[e.id].token in s.tables.refresh
  }

  lemma QuietKeepsOneHolder(s: State, s': State, id: nat)
    requires OneHolder(s) && s'.issued == s.issued && s'.tables.refresh == s.tables.refresh
    requires s'.threads == s.threads || (id in s'.threads && s'.threads == s.threads[id := s'.threads[id]]
      && !s'.threads[id].CodeMarked? && !s'.threads[id].RefreshDeleted?)
    ensures OneHolder(s')
  {
    hide InLineage;
    HoldersTransfer(s, s', Minting(id), Minting(id));
  }

  /** Events that neither mark a code, nor touch a refresh token. */
  predicate IsQuiet(s: State, e: Event) {
    e.Run? && e.id in s.threads ==>
      var th := s.threads[e.id]; !th.CodeFetched? && !th.CodeMarked? && !th.RefreshFetched? && !th.RefreshDeleted?
  }

  lemma QuietRunShape(cfg: Config, s: State, e: Event)
    requires IsQuiet(s, e) && e.Run? && e.id in s.threads
    ensures var s' := Step(cfg, s, e);
      && s'.issued == s.issued && s'.tables.refresh == s.tables.refresh
      && (s'.threads == s.threads || (e.id in s'.threads && s'.threads == s.threads[e.id := s'.threads[e.id]]))
  {
    hide VerifyPkce, MarkCode, ReplyCode, ReplyRefresh, DeleteOld, CodeRow, RefreshRow, SessionRow;
    match s.threads[e.id]
    case CodeStart(req) =>
    case RefreshStart(_, _) =>
    case LoginStart(_, _) =>
    case LoginFetched(_, _, _) =>
    case LoginSaved(_, _) =>
    case _ =>
  }

  lemma QuietRunMoves(cfg: Config, s: State, e: Event)
    requires IsQuiet(s, e) && e.Run? && e.id in s.threads
    ensures var s' := Step(cfg, s, e);
      s'.threads == s.threads || (e.id in s'.threads && var th := s'.threads[e.id];
        !th.CodeMarked? && !th.RefreshDeleted? && (th.RefreshFetched? ==> s.threads[e.id].RefreshStart?))
  {
    hide VerifyPkce, MarkCode, ReplyCode, ReplyRefresh, DeleteOld, CodeRow, RefreshRow, SessionRow;
    match s.threads[e.id]
    case CodeStart(req) =>
    case RefreshStart(_, _) =>
    case LoginStart(_, _) =>
    case LoginFetched(_, _, _) =>
    case LoginSaved(_, _) =>
    case _ =>
  }

  lemma QuietShape(cfg: Config, s: State, e: Event)
    requires IsQuiet(s, e)
    ensures var (s', id) := (Step(cfg, s, e), if e.Run? || e.Arrive? then e.id else 0);
      && s'.issued == s.issued && s'.tables.refresh == s.tables.refresh
      && (s'.threads == s.threads
        || (id in s'.threads && s'.threads == s.threads[id := s'.threads[id]] && var th := s'.threads[id];
            !th.CodeMarked? && !th.RefreshDeleted?
              && (th.RefreshFetched? ==> e.Run? && id in s.threads && s.threads[id].RefreshStart?)))
  {
    hide RunThread;
    if e.Run? && e.id in s.threads {
      hide Step;
      QuietRunShape(cfg, s, e);
      QuietRunMoves(cfg, s, e);
    }
  }

  lemma QuietEvent(cfg: Config, s: State, e: Event)
    requires IsQuiet(s, e) && OneHolder(s)
    ensures OneHolder(Step(cfg, s, e))
  {
    hide OneHolder, Step;
    QuietShape(cfg, s, e);
    QuietKeepsOneHolder(s, Step(cfg, s, e), if e.Run? || e.Arrive? then e.id else 0);
  }

  lemma StepKeepsOneHolder(cfg: Config, s: State, e: Event)
    requires Inv(cfg, s) && OneHolder(s) && FreshToken(s, e) && CleanDelete(s, e)
    ensures OneHolder(Step(cfg, s, e))
  {
    hide OneHolder, Inv, MarkCode, ReplyCode, ReplyRefresh, DeleteOld;
    if IsQuiet(s, e) {
      QuietEvent(cfg, s, e);
    } else {
      var (id, th) := (e.id, s.threads[e.id]);
      if th.CodeFetched? {
        MarkKeepsOneHolder(cfg, s, id, th, e.up);
      } else if th.RefreshFetched? {
        DeleteKeepsOneHolderExactly(cfg, s, id, th, e.up);
      } else {
        ReplyKeepsOneHolder(cfg, s, id, th, e.up, e.minted, e.drawn);
      }
    }
  }

  predicate CleanAt(events: seq<Event>, trace: seq<State>, k: nat)
    requires |trace| == |events| + 1 && k < |events|
  {
    CleanDelete(trace[k], events[k])
  }

  ghost predicate CleanRun(events: seq<Event>, trace: seq<State>)
    requires |trace| == |events| + 1
  {
    forall k: nat {:trigger CleanAt(events, trace, k)} :: k < |events| ==> CleanAt(events, trace, k)
  }

  lemma {:induction false} CleanRunKeepsOneHolder(cfg: Config, events: seq<Event>, trace: seq<State>, k: nat)
    requires IsRun(cfg, events, trace) && CleanRun(events, trace) && k <= |events|
    ensures OneHolder(trace[k])
  {
    hide Inv, Step, FreshToken, CleanDelete;
    if k == 0 {
      assert OneHolder(INITIAL);
    } else {
      hide IsRun, OneHolder;
      TraceLength(cfg, events, trace);
      CleanRunKeepsOneHolder(cfg, events, trace, k - 1);
      RunKeeps(cfg, events, trace, k - 1);
      EventGoes(cfg, events, trace, k - 1);
      assert CleanAt(events, trace, k - 1);
      StepKeepsOneHolder(cfg, trace[k - 1], events[k - 1]);
    }
  }

  ghost predicate OneLiveToken(s: State) {
    forall t, t', code ::
      && t in s.tables.refresh && t' in s.tables.refresh
      && InLineage(s.issued, t, code) && InLineage(s.issued, t', code)
      ==> t == t'
  }

  /** Over every run, however its requests interleave, in which each rotation's delete removes the old
      row, every lineage has at most one live refresh token at any time (section 6 of RFC 6749). */
  lemma CleanRunHasOneLiveToken(cfg: Config, events: seq<Event>, trace: seq<State>, k: nat)
    requires IsRun(cfg, events, trace) && CleanRun(events, trace) && k <= |events|
    ensures OneLiveToken(trace[k])
  {
    hide IsRun, CleanRun, InLineage;
    TraceLength(cfg, events, trace);
    CleanRunKeepsOneHolder(cfg, events, trace, k);
    var s := trace[k];
    forall t, t', code | t in s.tables.refresh && t' in s.tables.refresh
      && InLineage(s.issued, t, code) && InLineage(s.issued, t', code)
      ensures t == t'
    {
      assert Holds(s, Live(t), code) && Holds(s, Live(t'), code);
    }
  }

  // ----- Exactly when --------------------------------------------------------------------------

  /** Some token of the table is in a lineage of `token`. */
  ghost predicate LiveInLineage(s: State, token: string) {
    exists t, code :: t in s.tables.refresh && InLineage(s.issued, t, code) && InLineage(s.issued, token, code)
  }

  lemma FewerTokensKeepOne(s: State, s': State)
    requires OneLiveToken(s) && s'.issued == s.issued && s'.tables.refresh.Keys <= s.tables.refresh.Keys
    ensures OneLiveToken(s')
  {
    hide InLineage;
  }

  /** No token was added to the table that was not stored, so a new one is not there yet. */
  lemma NewTokenIsNotLive(s: State, token: string)
    requires LogOk(s) && forall i :: 0 <= i < |s.issued| ==> s.issued[i].token != token
    ensures token !in s.tables.refresh
  {
    hide EntryOk;
    forall t | t in s.tables.refresh ensures exists j :: 0 <= j < |s.issued| && s.issued[j].token == t {
      var r := s.tables.refresh[t];
      var j :| IsIssued(s.issued, j, t, r.userId, r.clientId, r.scope);
      assert s.issued[j].token == t;
    }
  }

  /** A new token was stored: one live token a lineage stays so exactly when no live token is in a lineage
      the new one inherits. */
  lemma StoredTokenExactly(s: State, s': State, e: Issued)
    requires OneLiveToken(s) && DistinctTokens(s.issued + [e]) && s'.issued == s.issued + [e]
    requires s'.tables.refresh.Keys == s.tables.refresh.Keys + {e.token} && e.token !in s.tables.refresh
    requires e.parent.OfToken? ==> exists j :: 0 <= j < |s.issued| && s.issued[j].token == e.parent.token
    requires forall code :: Inherits(s.issued, e.parent, code) ==> InLineage(s'.issued, e.token, code)
    ensures OneLiveToken(s') <==>
      forall t, code :: t in s.tables.refresh && InLineage(s.issued, t, code) ==> !Inherits(s.issued, e.parent, code)
  {
    hide InLineage, RootOf, Inherits;
    forall t, code | t in s.tables.refresh
      ensures InLineage(s'.issued, t, code) <==> InLineage(s.issued, t, code)
    {
      LineageStable(s.issued, e, t, code);
    }
    forall code | InLineage(s'.issued, e.token, code) ensures Inherits(s.issued, e.parent, code) {
      LineageOfNew(s.issued, e, code);
    }
    if t, code :| t in s.tables.refresh && InLineage(s.issued, t, code) && Inherits(s.issued, e.parent, code) {
      assert InLineage(s'.issued, t, code) && InLineage(s'.issued, e.token, code) && t != e.token;
    }
  }

  /** The step that forks: a rotation's reply keeps one live token a lineage exactly when it stores no
      token, or no token of its lineage is live by then. */
  lemma RotationKeepsOneLiveTokenExactly(cfg: Config, s: State, id: nat, th: Thread, up: bool, minted: bool,
      drawn: string)
    requires Inv(cfg, s) && OneLiveToken(s) && id in s.threads && s.threads[id] == th && th.RefreshDeleted?
    requires forall i :: 0 <= i < |s.issued| ==> s.issued[i].token != drawn
    ensures OneLiveToken(ReplyRefresh(cfg, s, id, th, up, minted, drawn)) <==>
      !minted || !up || !LiveInLineage(s, th.token)
  {
    hide InLineage, RootOf, ThreadsOk, LogOk, RootsOk, CodesOk, OneRedeemer, OneLiveToken;
    var s' := ReplyRefresh(cfg, s, id, th, up, minted, drawn);
    NewTokenIsNotLive(s, drawn);
    if minted && up {
      var e := Issued(drawn, OfToken(th.token), th.row.userId, th.row.clientId, th.row.scope);
      assert s'.issued == s.issued + [e];
      assert DistinctTokens(s'.issued) by { LogIsDistinct(s); }
      DeletedTokensWereIssued(cfg, s);
      forall code | Inherits(s.issued, e.parent, code) ensures InLineage(s'.issued, drawn, code) {
        NewInheritsLineage(s.issued, e, th.token, code);
      }
      StoredTokenExactly(s, s', e);
    } else {
      FewerTokensKeepOne(s, s');
    }
  }

  /** Every lineage starts at an entry of its code. */
  lemma {:induction false} RootHasEntry(s: State, i: nat)
    requires LogOk(s) && i < |s.issued|
    ensures exists j :: 0 <= j < |s.issued| && s.issued[j].parent == OfCode(RootOf(s.issued, i))
    decreases i
  {
    assert EntryOk(s, i);
    match s.issued[i].parent
    case OfCode(c) =>
    case OfToken(o) =>
      var e := s.issued[i];
      var k :| IsIssued(s.issued[..i], k, o, e.userId, e.clientId, e.scope);
      assert s.issued[k].token == o;
      var j: nat :| j < i && s.issued[j].token == o && RootOf(s.issued, i) == RootOf(s.issued, j);
      RootHasEntry(s, j);
  }

  lemma NewRootInherits(issued: seq<Issued>, e: Issued, code: string)
    requires e.parent == OfCode(code)
    ensures InLineage(issued + [e], e.token, code)
  {
    var longer := issued + [e];
    assert longer[|issued|] == e && RootOf(longer, |issued|) == code;
  }

  /** The first token of a code starts a new lineage, so it never makes a second one. */
  lemma FirstTokenKeepsOneLiveToken(cfg: Config, s: State, id: nat, th: Thread, up: bool, minted: bool, drawn: string)
    requires Inv(cfg, s) && OneLiveToken(s) && id in s.threads && s.threads[id] == th && th.CodeMarked?
    requires forall i :: 0 <= i < |s.issued| ==> s.issued[i].token != drawn
    ensures OneLiveToken(ReplyCode(cfg, s, id, th, up, minted, drawn))
  {
    hide InLineage, RootOf, ThreadsOk, LogOk, RootsOk, CodesOk, OneRedeemer, OneLiveToken;
    var s' := ReplyCode(cfg, s, id, th, up, minted, drawn);
    NewTokenIsNotLive(s, drawn);
    if minted && up {
      var e := Issued(drawn, OfCode(th.req.code), th.got.userId, th.got.clientId, th.got.scope);
      assert s'.issued == s.issued + [e];
      assert DistinctTokens(s'.issued) by { LogIsDistinct(s); }
      NewRootInherits(s.issued, e, th.req.code);
      forall t, code | InLineage(s.issued, t, code) ensures code != th.req.code {
        MarkedCodeHasNoLineage(s, id, th, t);
      }
      StoredTokenExactly(s, s', e);
    } else {
      FewerTokensKeepOne(s, s');
    }
  }

  lemma MarkedCodeHasNoLineage(s: State, id: nat, th: Thread, t: string)
    requires LogOk(s) && RootsOk(s) && id in s.threads && s.threads[id] == th && th.CodeMarked?
    ensures !InLineage(s.issued, t, th.req.code)
  {
    hide RootOf, LogOk;
    if i :| 0 <= i < |s.issued| && s.issued[i].token == t && RootOf(s.issued, i) == th.req.code {
      RootHasEntry(s, i);
    }
  }

  /** The event stores the token of a rotation whose lineage still has a live token. */
  ghost predicate ForksLineage(s: State, e: Event) {
    && e.Run? && e.id in s.threads && s.threads[e.id].RefreshDeleted?
    && e.up && e.minted && LiveInLineage(s, s.threads[e.id].token)
  }

  lemma StepKeepsOneLiveTokenExactly(cfg: Config, s: State, e: Event)
    requires Inv(cfg, s) && OneLiveToken(s) && FreshToken(s, e)
    ensures OneLiveToken(Step(cfg, s, e)) <==> !ForksLineage(s, e)
  {
    hide OneLiveToken, Inv, LiveInLineage, MarkCode, ReplyCode, ReplyRefresh, DeleteOld;
    if IsQuiet(s, e) {
      hide Step;
      QuietShape(cfg, s, e);
      FewerTokensKeepOne(s, Step(cfg, s, e));
    } else {
      var (id, th) := (e.id, s.threads[e.id]);
      if th.CodeFetched? {
        MarkAddsNoToken(s, id, th, e.up);
        FewerTokensKeepOne(s, Step(cfg, s, e));
      } else if th.RefreshFetched? {
        DeleteAddsNoToken(s, id, th, e.up);
        FewerTokensKeepOne(s, Step(cfg, s, e));
      } else if th.CodeMarked? {
        FirstTokenKeepsOneLiveToken(cfg, s, id, th, e.up, e.minted, e.drawn);
      } else {
        RotationKeepsOneLiveTokenExactly(cfg, s, id, th, e.up, e.minted, e.drawn);
      }
    }
  }

  lemma MarkAddsNoToken(s: State, id: nat, th: Thread, up: bool)
    requires th.CodeFetched?
    ensures var s' := MarkCode(s, id, th, up); s'.issued == s.issued && s'.tables.refresh == s.tables.refresh
  {
  }

  lemma DeleteAddsNoToken(s: State, id: nat, th: Thread, up: bool)
    requires th.RefreshFetched?
    ensures var s' := DeleteOld(s, id, th, up); s'.issued == s.issued && s'.tables.refresh.Keys <= s.tables.refresh.Keys
  {
  }

  ghost predicate OneLiveAt(trace: seq<State>, k: nat)
    requires k < |trace|
  {
    OneLiveToken(trace[k])
  }

  ghost predicate ForksAt(events: seq<Event>, trace: seq<State>, k: nat)
    requires |trace| == |events| + 1 && k < |events|
  {
    ForksLineage(trace[k], events[k])
  }

  lemma {:induction false} UnforkedRun(cfg: Config, events: seq<Event>, trace: seq<State>, k: nat)
    requires IsRun(cfg, events, trace) && k <= |events|
    requires forall i: nat :: i < |events| ==> !ForksAt(events, trace, i)
    ensures OneLiveAt(trace, k)
  {
    hide Inv, Step, FreshToken, InLineage, ForksLineage;
    if k > 0 {
      hide IsRun, OneLiveToken;
      TraceLength(cfg, events, trace);
      UnforkedRun(cfg, events, trace, k - 1);
      RunKeeps(cfg, events, trace, k - 1);
      EventGoes(cfg, events, trace, k - 1);
      assert !ForksAt(events, trace, k - 1) && OneLiveAt(trace, k - 1);
      StepKeepsOneLiveTokenExactly(cfg, trace[k - 1], events[k - 1]);
    }
  }

  /** Over every run, however its requests interleave and whatever fails, every lineage has at most one
      live refresh token all along exactly when every rotation that stores a token finds its lineage
      without a live one (section 6 of RFC 6749). */
  lemma OneLiveTokenExactly(cfg: Config, events: seq<Event>, trace: seq<State>)
    requires IsRun(cfg, events, trace)
    ensures (forall k: nat :: k <= |events| ==> OneLiveAt(trace, k))
       <==> (forall k: nat :: k < |events| ==> !ForksAt(events, trace, k))
  {
    hide IsRun, ForksLineage, OneLiveToken;
    TraceLength(cfg, events, trace);
    if forall k: nat :: k < |events| ==> !ForksAt(events, trace, k) {
      forall k: nat | k <= |events| ensures OneLiveAt(trace, k) {
        UnforkedRun(cfg, events, trace, k);
      }
    } else {
      var k: nat :| k < |events| && ForksAt(events, trace, k);
      RunKeeps(cfg, events, trace, k);
      EventGoes(cfg, events, trace, k);
      if OneLiveAt(trace, k) {
        hide FreshToken, Step;
        StepKeepsOneLiveTokenExactly(cfg, trace[k], events[k]);
        assert !OneLiveAt(trace, k + 1);
      }
    }
  }

  /** Refresh grants run one at a time, and their deletes succeed: no grant looks its token up while
      another is between its lookup and its delete. */
  predicate SerialEvent(s: State, e: Event) {
    e.Run? && e.id in s.threads ==>
      && (s.threads[e.id].RefreshStart? ==> forall j :: j in s.threads ==> !s.threads[j].RefreshFetched?)
      && (s.threads[e.id].RefreshFetched? ==> e.up)
  }

  predicate SerialAt(events: seq<Event>, trace: seq<State>, k: nat)
    requires |trace| == |events| + 1 && k < |events|
  {
    SerialEvent(trace[k], events[k])
  }

  ghost predicate SerialRun(events: seq<Event>, trace: seq<State>)
    requires |trace| == |events| + 1
  {
    forall k: nat {:trigger SerialAt(events, trace, k)} :: k < |events| ==> SerialAt(events, trace, k)
  }

  ghost predicate SerialInv(s: State) {
    && (forall j :: j in s.threads && s.threads[j].RefreshFetched? ==> s.threads[j].token in s.tables.refresh)
    && (forall i, j ::
      i in s.threads && j in s.threads && s.threads[i].RefreshFetched? && s.threads[j].RefreshFetched? ==> i == j)
  }

  lemma FetchIsSerial(s: State, id: nat, th: Thread, up: bool)
    requires SerialInv(s) && th.RefreshStart? && forall j :: j in s.threads ==> !s.threads[j].RefreshFetched?
    ensures SerialInv(FetchRefresh(s, id, th, up))
  {
  }

  lemma DeleteIsSerial(s: State, id: nat, th: Thread)
    requires SerialInv(s) && id in s.threads && s.threads[id] == th && th.RefreshFetched?
    ensures SerialInv(DeleteOld(s, id, th, true))
  {
  }

  /** The step took no token out of the table and started no rotation. */
  ghost predicate KeepsTokens(s: State, s': State) {
    && s.tables.refresh.Keys <= s'.tables.refresh.Keys
    && forall j :: j in s'.threads && s'.threads[j].RefreshFetched? ==> j in s.threads && s.threads[j] == s'.threads[j]
  }

  lemma KeepsTokensByThread(s: State, s': State, id: nat)
    requires s.tables.refresh.Keys <= s'.tables.refresh.Keys
    requires s'.threads == s.threads
      || (id in s'.threads && s'.threads == s.threads[id := s'.threads[id]] && !s'.threads[id].RefreshFetched?)
    ensures KeepsTokens(s, s')
  {
  }

  lemma OtherStepsKeepTokens(cfg: Config, s: State, e: Event)
    requires e.Run? && e.id in s.threads ==> !s.threads[e.id].RefreshStart? && !s.threads[e.id].RefreshFetched?
    ensures KeepsTokens(s, Step(cfg, s, e))
  {
    hide VerifyPkce, Redeemable, CodeRow, RefreshRow, SessionRow;
    var s' := Step(cfg, s, e);
    if IsQuiet(s, e) {
      hide Step;
      QuietShape(cfg, s, e);
      KeepsTokensByThread(s, s', if e.Run? || e.Arrive? then e.id else 0);
    } else {
      match s.threads[e.id]
      case CodeFetched(_, _, _) =>
        KeepsTokensByThread(s, s', e.id);
      case CodeMarked(_, _, _) =>
        KeepsTokensByThread(s, s', e.id);
      case RefreshDeleted(_, _) =>
        KeepsTokensByThread(s, s', e.id);
      case _ =>
    }
  }

  lemma SerialStep(cfg: Config, s: State, e: Event)
    requires SerialInv(s) && SerialEvent(s, e)
    ensures SerialInv(Step(cfg, s, e)) && CleanDelete(s, e)
  {
    hide FetchRefresh, DeleteOld, FetchCode, MarkCode, ReplyCode, ReplyRefresh, FetchSession, SaveLoginCode,
      DropSession;
    if e.Run? && e.id in s.threads && s.threads[e.id].RefreshStart? {
      FetchIsSerial(s, e.id, s.threads[e.id], e.up);
    } else if e.Run? && e.id in s.threads && s.threads[e.id].RefreshFetched? {
      DeleteIsSerial(s, e.id, s.threads[e.id]);
    } else {
      hide Step;
      OtherStepsKeepTokens(cfg, s, e);
    }
  }

  lemma {:induction false} SerialRunIsSerial(cfg: Config, events: seq<Event>, trace: seq<State>, k: nat)
    requires IsRun(cfg, events, trace) && SerialRun(events, trace) && k <= |events|
    ensures SerialInv(trace[k]) && (k < |events| ==> CleanAt(events, trace, k))
  {
    hide Step, SerialEvent, CleanDelete, FreshToken;
    if k == 0 {
      assert SerialInv(INITIAL);
    } else {
      hide IsRun, SerialInv;
      TraceLength(cfg, events, trace);
      SerialRunIsSerial(cfg, events, trace, k - 1);
      EventGoes(cfg, events, trace, k - 1);
      assert SerialAt(events, trace, k - 1);
      SerialStep(cfg, trace[k - 1], events[k - 1]);
    }
    if k < |events| {
      assert SerialAt(events, trace, k);
      SerialStep(cfg, trace[k], events[k]);
    }
  }

  /** In particular when refresh grants run one at a time and their deletes succeed. */
  lemma SerialRotationHasOneLiveToken(cfg: Config, events: seq<Event>, trace: seq<State>, k: nat)
    requires IsRun(cfg, events, trace) && SerialRun(events, trace) && k <= |events|
    ensures OneLiveToken(trace[k])
  {
    hide IsRun, SerialRun, OneLiveToken, CleanAt;
    TraceLength(cfg, events, trace);
    forall i: nat | i < |events| ensures CleanAt(events, trace, i) {
      SerialRunIsSerial(cfg, events, trace, i);
    }
    CleanRunHasOneLiveToken(cfg, events, trace, k);
  }

  // ----- Where it fails ------------------------------------------------------------------------

  lemma NewInheritsLineage(issued: seq<Issued>, e: Issued, token: string, code: string)
    requires DistinctTokens(issued + [e]) && e.parent == OfToken(token) && InLineage(issued, token, code)
    ensures InLineage(issued + [e], e.token, code)
  {
    var longer, n := issued + [e], |issued|;
    var k :| 0 <= k < n && issued[k].token == token && RootOf(issued, k) == code;
    assert longer[n] == e && longer[k].token == token;
    var j: nat :| j < n && longer[j].token == token && RootOf(longer, n) == RootOf(longer, j);
    assert j == k;
    RootStable(issued, e, k);
  }

  /** One rotation from lookup to reply, whose delete the database may refuse. */
  function Rotation(id: nat, token: string, clientId: string, deleted: bool, drawn: string): seq<Event> {
    [Arrive(id, RefreshStart(token, clientId)), Run(id, true, true, drawn), Run(id, deleted, true, drawn),
      Run(id, true, true, drawn)]
  }

  /** The error of DeleteRefreshToken is ignored: a rotation whose delete fails leaves the old token and
      the new one live in one lineage. */
  lemma FailedDeleteForksLineage(cfg: Config, s: State, id: nat, token: string, drawn: string, code: string)
    requires Reachable(cfg, s) && id !in s.threads && token != "" && token in s.tables.refresh
    requires s.tables.refresh[token].expiresAt >= s.now && s.tables.refresh[token].clientId != ""
    requires InLineage(s.issued, token, code)
    requires drawn !in s.tables.refresh && forall i :: 0 <= i < |s.issued| ==> s.issued[i].token != drawn
    ensures var s' := RunAll(cfg, s, Rotation(id, token, s.tables.refresh[token].clientId, false, drawn));
      && Reachable(cfg, s') && token in s'.tables.refresh && InLineage(s'.issued, token, code)
      && drawn in s'.tables.refresh && InLineage(s'.issued, drawn, code)
  {
    hide InLineage, RunAll, Inv, Reachable;
    ReachableOk(cfg, s);
    var row := s.tables.refresh[token];
    var events := Rotation(id, token, row.clientId, false, drawn);
    var s1 := Set(s, id, RefreshStart(token, row.clientId));
    var s2 := Set(s, id, RefreshFetched(token, row));
    var s3 := Set(s, id, RefreshDeleted(token, row));
    var s4 := ReplyRefresh(cfg, s3, id, RefreshDeleted(token, row), true, true, drawn);
    assert Step(cfg, s, events[0]) == s1;
    assert Step(cfg, s1, events[1]) == s2 by { assert s1.threads[id := RefreshFetched(token, row)] == s2.threads; }
    assert Step(cfg, s2, events[2]) == s3 by { assert s2.threads[id := RefreshDeleted(token, row)] == s3.threads; }
    assert Step(cfg, s3, events[3]) == s4;
    FourSteps(cfg, s, events, s1, s2, s3, s4);
    assert Reachable(cfg, s4) by { FourReachable(cfg, s, events, s1, s2, s3, s4); }
    var e := Issued(drawn, OfToken(token), row.userId, row.clientId, row.scope);
    assert s4.issued == s.issued + [e];
    assert DistinctTokens(s.issued) by { assert LogOk(s) by { hide *; InvHasLog(cfg, s); } LogIsDistinct(s); }
    NewInheritsLineage(s.issued, e, token, code);
    LineageStable(s.issued, e, token, code);
  }

  lemma InvHasLog(cfg: Config, s: State)
    requires Inv(cfg, s)
    ensures LogOk(s)
  {
  }

  lemma {:induction false} RunAppend(cfg: Config, s: State, a: seq<Event>, b: seq<Event>)
    ensures RunAll(cfg, s, a + b) == RunAll(cfg, RunAll(cfg, s, a), b)
    decreases |b|
  {
    hide Step;
    if b == [] {
      assert a + b == a;
    } else {
      assert (a + b)[..|a + b| - 1] == a + b[..|b| - 1];
      RunAppend(cfg, s, a, b[..|b| - 1]);
    }
  }

  /** Two rotations of one token that both look it up before either deletes it. */
  function LookUpTwice(a: nat, b: nat, token: string, clientId: string, x: string): seq<Event> {
    [Arrive(a, RefreshStart(token, clientId)), Arrive(b, RefreshStart(token, clientId)), Run(a, true, true, x),
      Run(b, true, true, x)]
  }

  function FinishTwice(a: nat, b: nat, x: string, y: string): seq<Event> {
    [Run(a, true, true, x), Run(b, true, true, y), Run(a, true, true, x), Run(b, true, true, y)]
  }

  lemma BothLookUp(cfg: Config, s: State, a: nat, b: nat, token: string, x: string)
    requires Reachable(cfg, s) && (forall i :: 0 <= i < |s.issued| ==> s.issued[i].token != x)
    requires a != b && a !in s.threads && b !in s.threads && token != "" && token in s.tables.refresh
    requires s.tables.refresh[token].expiresAt >= s.now && s.tables.refresh[token].clientId != ""
    ensures var row := s.tables.refresh[token];
      var s' := RunAll(cfg, s, LookUpTwice(a, b, token, row.clientId, x));
      s' == Set(Set(s, a, RefreshFetched(token, row)), b, RefreshFetched(token, row)) && Reachable(cfg, s')
  {
    hide RunAll, Reachable;
    var row := s.tables.refresh[token];
    var start, fetched := RefreshStart(token, row.clientId), RefreshFetched(token, row);
    var events := LookUpTwice(a, b, token, row.clientId, x);
    var s1 := Set(s, a, start);
    var s2 := Set(s1, b, start);
    var s3 := Set(s2, a, fetched);
    var s4 := Set(s3, b, fetched);
    assert s4 == Set(Set(s, a, fetched), b, fetched) by {
      assert s4.threads == s.threads[a := fetched][b := fetched];
    }
    FourSteps(cfg, s, events, s1, s2, s3, s4);
    FourReachable(cfg, s, events, s1, s2, s3, s4);
  }

  lemma BothFinish(cfg: Config, s: State, a: nat, b: nat, token: string, row: Refresh, x: string, y: string)
    requires a != b && a in s.threads && b in s.threads
    requires s.threads[a] == s.threads[b] == RefreshFetched(token, row)
    requires x != y && x !in s.tables.refresh && y !in s.tables.refresh
    requires Reachable(cfg, s) && forall i :: 0 <= i < |s.issued| ==> s.issued[i].token != x && s.issued[i].token != y
    ensures var s' := RunAll(cfg, s, FinishTwice(a, b, x, y));
      && Reachable(cfg, s') && x in s'.tables.refresh && y in s'.tables.refresh
      && s'.issued == s.issued + [Issued(x, OfToken(token), row.userId, row.clientId, row.scope)]
                               + [Issued(y, OfToken(token), row.userId, row.clientId, row.scope)]
  {
    hide RunAll, Reachable;
    var deleted := RefreshDeleted(token, row);
    var s1 := DeleteOld(s, a, s.threads[a], true);
    var s2 := DeleteOld(s1, b, s1.threads[b], true);
    var s3 := ReplyRefresh(cfg, s2, a, deleted, true, true, x);
    var s4 := ReplyRefresh(cfg, s3, b, deleted, true, true, y);
    assert s2.threads[a] == s2.threads[b] == deleted && s3.threads[b] == deleted;
    FourSteps(cfg, s, FinishTwice(a, b, x, y), s1, s2, s3, s4);
    FourReachable(cfg, s, FinishTwice(a, b, x, y), s1, s2, s3, s4);
  }

  /** DeleteRefreshToken does not say whether it removed a row: two rotations of one token that overlap
      both succeed, and leave two live tokens in its lineage. */
  lemma OverlappingRotationsForkLineage(cfg: Config, s: State, a: nat, b: nat, token: string, x: string, y: string,
      code: string)
    requires Reachable(cfg, s) && a != b && a !in s.threads && b !in s.threads && token != ""
      && token in s.tables.refresh
    requires s.tables.refresh[token].expiresAt >= s.now && s.tables.refresh[token].clientId != ""
    requires InLineage(s.issued, token, code)
    requires x != y && x !in s.tables.refresh && y !in s.tables.refresh
    requires forall i :: 0 <= i < |s.issued| ==> s.issued[i].token != x && s.issued[i].token != y
    ensures var s' :=
      RunAll(cfg, s, LookUpTwice(a, b, token, s.tables.refresh[token].clientId, x) + FinishTwice(a, b, x, y));
      && Reachable(cfg, s') && x in s'.tables.refresh && InLineage(s'.issued, x, code)
      && y in s'.tables.refresh && InLineage(s'.issued, y, code)
  {
    hide InLineage, RunAll, Inv, Reachable;
    ReachableOk(cfg, s);
    var row := s.tables.refresh[token];
    var mid := Set(Set(s, a, RefreshFetched(token, row)), b, RefreshFetched(token, row));
    RunAppend(cfg, s, LookUpTwice(a, b, token, row.clientId, x), FinishTwice(a, b, x, y));
    BothLookUp(cfg, s, a, b, token, x);
    BothFinish(cfg, mid, a, b, token, row, x, y);
    var e := Issued(x, OfToken(token), row.userId, row.clientId, row.scope);
    var f := Issued(y, OfToken(token), row.userId, row.clientId, row.scope);
    InvHasLog(cfg, s);
    assert DistinctTokens(s.issued) by { LogIsDistinct(s); }
    NewInheritsLineage(s.issued, e, token, code);
    LineageStable(s.issued, e, token, code);
    NewInheritsLineage(s.issued + [e], f, token, code);
    LineageStable(s.issued + [e], f, x, code);
  }

  // ----- A run that forks ----------------------------------------------------------------------

  /** A login, then a code redeemed, from the empty tables: one live token. */
  function LoginEvents(challenge: string): seq<Event> {
    [Authorize("s", Session("c", "r", challenge, "p")), Arrive(0, LoginStart("s", "u")), Run(0, true, true, "k"),
      Run(0, true, true, "k")]
  }

  function RedeemEvents(verifier: string): seq<Event> {
    [Arrive(1, CodeStart(CodeRequest("k", "c", "r", verifier))), Run(1, true, true, "t"), Run(1, true, true, "t"),
      Run(1, true, true, "t")]
  }

  predicate Usable(cfg: Config, verifier: string) {
    verifier != "" && cfg.s256(verifier) != "" && cfg.codeTtl >= 0 && cfg.refreshTtl >= 0
  }

  lemma LoginReached(cfg: Config, verifier: string) returns (s: State)
    requires Usable(cfg, verifier)
    ensures Reachable(cfg, s) && s.issued == [] && s.tables.refresh == map[] && s.now == 0 && s.threads.Keys == {0}
    ensures s.tables.codes == map["k" := Code("c", "u", "r", cfg.s256(verifier), "p", cfg.codeTtl, false)]
  {
    hide Reachable;
    var events := LoginEvents(cfg.s256(verifier));
    var s1 := Step(cfg, INITIAL, events[0]);
    var s2 := Step(cfg, s1, events[1]);
    var s3 := Step(cfg, s2, events[2]);
    s := Step(cfg, s3, events[3]);
    InitialIsReachable(cfg);
    FourReachable(cfg, INITIAL, events, s1, s2, s3, s);
  }

  lemma TokenReached(cfg: Config, verifier: string) returns (s: State)
    requires Usable(cfg, verifier)
    ensures Reachable(cfg, s) && s.threads.Keys == {0, 1} && s.now == 0
    ensures s.tables.refresh == map["t" := Refresh("u", "c", "p", cfg.refreshTtl)]
    ensures s.issued == [Issued("t", OfCode("k"), "u", "c", "p")] && InLineage(s.issued, "t", "k")
  {
    hide Reachable;
    var s0 := LoginReached(cfg, verifier);
    var events := RedeemEvents(verifier);
    var s1 := Step(cfg, s0, events[0]);
    var s2 := Step(cfg, s1, events[1]);
    var s3 := Step(cfg, s2, events[2]);
    s := Step(cfg, s3, events[3]);
    FourReachable(cfg, s0, events, s1, s2, s3, s);
    assert s.issued[0].token == "t" && RootOf(s.issued, 0) == "k";
  }

  /** So both ways of forking are ways a real run can go: from the empty tables, after one login and one
      redeemed code, a rotation whose delete fails, and two rotations that overlap. */
  lemma ForksAreReachable(cfg: Config, verifier: string)
    requires Usable(cfg, verifier)
    ensures exists s :: Reachable(cfg, s) && TwoLive(s, "t", "n")
    ensures exists s :: Reachable(cfg, s) && TwoLive(s, "x", "y")
  {
    hide Reachable, RunAll, InLineage;
    var s := TokenReached(cfg, verifier);
    FailedDeleteForksLineage(cfg, s, 2, "t", "n", "k");
    var forked := RunAll(cfg, s, Rotation(2, "t", "c", false, "n"));
    assert Reachable(cfg, forked) && TwoLive(forked, "t", "n");
    OverlappingRotationsForkLineage(cfg, s, 2, 3, "t", "x", "y", "k");
    var both := RunAll(cfg, s, LookUpTwice(2, 3, "t", "c", "x") + FinishTwice(2, 3, "x", "y"));
    assert Reachable(cfg, both) && TwoLive(both, "x", "y");
  }

  /** Two live tokens of one lineage. */
  ghost predicate TwoLive(s: State, x: string, y: string) {
    && x != y && x in s.tables.refresh && y in s.tables.refresh
    && exists code :: InLineage(s.issued, x, code) && InLineage(s.issued, y, code)
  }
}
