/** The reconcile verdicts of `skill sync`: one verdict a name, the precedence merge of the scopes,
    and the ordered plan (internal/cli/cmd_skill_sync.go). */
module Reconcile {
  import opened Text
  import opened SkillStamp

  datatype Action = Install | Update | Skip | Remove | Conflict | LeaveUnstamped | MatchUnstamped | Migrate

  /** What sync reads off disk for one name. */
  datatype Local = Local(name: string, stamped: bool, stamp: Stamp, bodyHash: string, malformed: bool, legacy: bool)

  datatype PlanItem = PlanItem(name: string, action: Action, sub: Option<Row>)

  const OWNER_PREFIX := "satellites-"

  /** localSkillName: the directory a row is materialised under. */
  function LocalSkillName(rowName: string): (n: string)
    ensures HasPrefix(n, OWNER_PREFIX)
    ensures HasPrefix(rowName, OWNER_PREFIX) ==> n == rowName
  {
    if HasPrefix(rowName, OWNER_PREFIX) then rowName else OWNER_PREFIX + rowName
  }

  /** Two rows share a directory exactly when they have one name, or one name is the other with the owner
      prefix put before it. */
  lemma LocalNamesEqualExactly(a: string, b: string)
    ensures LocalSkillName(a) == LocalSkillName(b) <==>
      || a == b
      || (a == "satellites-" + b && !("satellites-" <= b))
      || (b == "satellites-" + a && !("satellites-" <= a))
  {
    assert (OWNER_PREFIX + a)[|OWNER_PREFIX|..] == a && (OWNER_PREFIX + b)[|OWNER_PREFIX|..] == b;
  }

  /** readLocalSkill on the text of SKILL.md. */
  function ReadLocal(p: Platform, name: string, text: string): Local {
    var r := SplitStamp(p, text);
    Local(name, r.ok, r.stamp, p.hash(r.authored), r.malformed, r.legacy)
  }

  /** reconcileAction. */
  function ReconcileAction(p: Platform, sub: Option<Row>, local: Option<Local>): Action {
    if sub.Some? && local.None? then Install
    else if sub.Some? then
      var (s, l) := (sub.value, local.value);
      if !l.stamped then
        if l.bodyHash == p.hash(s.body) then MatchUnstamped else Conflict
      else if l.malformed then Conflict
      else if l.bodyHash != l.stamp.hash then Conflict
      else if s.documentId != "" && l.stamp.documentId != "" && s.documentId != l.stamp.documentId then Update
      else if s.version > l.stamp.version then Update
      else if l.legacy then Migrate
      else Skip
    else if local.Some? then
      var l := local.value;
      if !l.stamped then LeaveUnstamped
      else if l.malformed || l.bodyHash != l.stamp.hash then Conflict
      else Remove
    else Skip
  }

  /** splitStamp never reports a malformed stamp as a stamp, so the two tests of `malformed` in
      reconcileAction cannot fire on a file read from disk: such a file is handled as unstamped. */
  lemma MalformedReadsAsUnstamped(p: Platform, name: string, text: string, sub: Option<Row>)
    requires ReadLocal(p, name, text).malformed
    ensures ReconcileAction(p, sub, Some(ReadLocal(p, name, text)))
         == match sub
            case None => LeaveUnstamped
            case Some(s) => if p.hash(SplitStamp(p, text).authored) == p.hash(s.body) then MatchUnstamped else Conflict
  {
  }

  // ----- Keyed sets ----------------------------------------------------------------------------

  /** Rows keyed on their local name, later rows replacing earlier ones. */
  function SubByName(subs: seq<Row>): map<string, Row> {
    if subs == [] then map[]
    else SubByName(subs[..|subs| - 1])[LocalSkillName(subs[|subs| - 1].name) := subs[|subs| - 1]]
  }

  function LocalByName(locals: seq<Local>): map<string, Local> {
    if locals == [] then map[]
    else LocalByName(locals[..|locals| - 1])[locals[|locals| - 1].name := locals[|locals| - 1]]
  }

  /** subs[i] is the last row whose local name is `n`. */
  ghost predicate LastNamed(subs: seq<Row>, n: string, i: nat) {
    && i < |subs| && LocalSkillName(subs[i].name) == n
    && forall j :: i < j < |subs| ==> LocalSkillName(subs[j].name) != n
  }

  /** The last row of a name is the one the keyed map holds. */
  lemma {:induction false} LastRowIsKept(subs: seq<Row>, n: string, i: nat)
    requires LastNamed(subs, n, i)
    ensures n in SubByName(subs) && SubByName(subs)[n] == subs[i]
  {
    hide LocalSkillName;
    var k := |subs| - 1;
    if i < k {
      assert LocalSkillName(subs[k].name) != n;
      LastRowIsKept(subs[..k], n, i);
    }
  }

  /** The keyed map holds no other names. */
  lemma {:induction false} KeptRowIsLast(subs: seq<Row>, n: string) returns (i: nat)
    requires n in SubByName(subs)
    ensures LastNamed(subs, n, i) && SubByName(subs)[n] == subs[i]
  {
    hide LocalSkillName;
    var k := |subs| - 1;
    i := k;
    if LocalSkillName(subs[k].name) != n {
      i := KeptRowIsLast(subs[..k], n);
    }
  }

  function Flatten(sets: seq<seq<Row>>): seq<Row> {
    if sets == [] then [] else Flatten(sets[..|sets| - 1]) + sets[|sets| - 1]
  }

  lemma NoRows()
    ensures SubByName([]) == map[]
  {
  }

  lemma FlattenStep(sets: seq<seq<Row>>, k: nat)
    requires k <= |sets|
    ensures SubByName(Flatten([])) == map[] && sets[..0] == []
    ensures k < |sets| ==> Flatten(sets[..k + 1]) == Flatten(sets[..k]) + sets[k]
  {
    if k < |sets| {
      assert sets[..k + 1][..k] == sets[..k];
    }
  }

  lemma SubByNameStep(subs: seq<Row>, s: Row)
    ensures SubByName(subs + [s]) == SubByName(subs)[LocalSkillName(s.name) := s]
  {
    assert (subs + [s])[..|subs|] == subs;
  }

  /** Rows after others replace them. */
  lemma {:induction false} SubByNameAppend(a: seq<Row>, b: seq<Row>)
    ensures SubByName(a + b) == SubByName(a) + SubByName(b)
    decreases |b|
  {
    hide LocalSkillName;
    if b == [] {
      assert a + b == a;
    } else {
      assert (a + b)[..|a + b| - 1] == a + b[..|b| - 1];
      SubByNameAppend(a, b[..|b| - 1]);
    }
  }

  lemma NoLocals()
    ensures LocalByName([]) == map[]
  {
  }

  lemma LocalByNameStep(locals: seq<Local>, l: Local)
    ensures LocalByName(locals + [l]) == LocalByName(locals)[l.name := l]
  {
    assert (locals + [l])[..|locals|] == locals;
  }

  /** mergeByPrecedence: the values of the keyed map, in the map's own (unspecified) order. */
  method MergeByPrecedence(sets: seq<seq<Row>>) returns (out: seq<Row>)
    ensures SubByName(out) == SubByName(Flatten(sets))
    ensures forall i, j :: 0 <= i < j < |out| ==> LocalSkillName(out[i].name) != LocalSkillName(out[j].name)
  {
    hide SubByName, Flatten, LocalSkillName;
    var byName: map<string, Row> := map[];
    FlattenStep(sets, 0);
    for k := 0 to |sets|
      invariant byName == SubByName(Flatten(sets[..k]))
    {
      FlattenStep(sets, k);
      ghost var before := Flatten(sets[..k]);
      assert before + sets[k][..0] == before;
      for i := 0 to |sets[k]|
        invariant byName == SubByName(before + sets[k][..i])
      {
        SubByNameStep(before + sets[k][..i], sets[k][i]);
        assert before + sets[k][..i + 1] == before + sets[k][..i] + [sets[k][i]];
        byName := byName[LocalSkillName(sets[k][i].name) := sets[k][i]];
      }
      assert sets[k][..|sets[k]|] == sets[k];
    }
    assert sets[..|sets|] == sets;
    KeyedRows(Flatten(sets));
    out := ValuesInSomeOrder(byName);
  }

  ghost predicate KeyedByLocalName(m: map<string, Row>) {
    forall n :: n in m ==> LocalSkillName(m[n].name) == n
  }

  lemma {:induction false} KeyedRows(subs: seq<Row>)
    ensures KeyedByLocalName(SubByName(subs))
  {
    if subs != [] {
      KeyedRows(subs[..|subs| - 1]);
    }
  }

  /** Ranging over a Go map: any order of the keys. */
  method ValuesInSomeOrder(m: map<string, Row>) returns (out: seq<Row>)
    requires KeyedByLocalName(m)
    ensures SubByName(out) == m
    ensures forall i, j :: 0 <= i < j < |out| ==> LocalSkillName(out[i].name) != LocalSkillName(out[j].name)
  {
    hide SubByName, LocalSkillName;
    out := [];
    var left := m.Keys;
    NoRows();
    while left != {}
      invariant left <= m.Keys
      invariant SubByName(out) == map n | n in m && n !in left :: m[n]
      invariant forall i :: 0 <= i < |out| ==> LocalSkillName(out[i].name) in m && LocalSkillName(out[i].name) !in left
      invariant forall i, j :: 0 <= i < j < |out| ==> LocalSkillName(out[i].name) != LocalSkillName(out[j].name)
      decreases left
    {
      var n :| n in left;
      SubByNameStep(out, m[n]);
      out := out + [m[n]];
      left := left - {n};
    }
  }

  // ----- Order ---------------------------------------------------------------------------------

  /** The byte order of Go strings. */
  predicate Less(a: string, b: string) {
    b != "" && (a == "" || a[0] < b[0] || (a[0] == b[0] && Less(a[1..], b[1..])))
  }

  lemma LessTotal(a: string, b: string)
    ensures Less(a, b) || a == b || Less(b, a)
    ensures !(Less(a, b) && Less(b, a)) && !Less(a, a)
  {
    if a != "" && b != "" && a[0] == b[0] {
      LessTotal(a[1..], b[1..]);
      assert a == [a[0]] + a[1..] && b == [b[0]] + b[1..];
    }
    if a != "" {
      LessTotal(a[1..], a[1..]);
    }
  }

  lemma LessTransitive(a: string, b: string, c: string)
    requires Less(a, b) && Less(b, c)
    ensures Less(a, c)
  {
    if a != "" && a[0] == b[0] == c[0] {
      LessTransitive(a[1..], b[1..], c[1..]);
    }
  }

  ghost predicate Increasing(names: seq<string>) {
    forall i, j :: 0 <= i < j < |names| ==> Less(names[i], names[j])
  }

  method Least(names: set<string>) returns (least: string)
    requires names != {}
    ensures least in names && forall n :: n in names && n != least ==> Less(least, n)
  {
    least :| least in names;
    var left := names - {least};
    while left != {}
      invariant left < names && least in names && least !in left
      invariant forall n :: n in names && n !in left && n != least ==> Less(least, n)
      decreases left
    {
      var n :| n in left;
      left := left - {n};
      LessTotal(least, n);
      if Less(n, least) {
        forall m | m in names && m !in left && m != n ensures Less(n, m) {
          if m != least {
            LessTransitive(n, least, m);
          }
        }
        least := n;
      }
    }
  }

  /** Collecting the names and sorting them (sort.Strings). */
  method SortNames(names: set<string>) returns (ordered: seq<string>)
    ensures Increasing(ordered) && forall n :: n in ordered <==> n in names
  {
    ordered := [];
    var left := names;
    while left != {}
      invariant left <= names
      invariant Increasing(ordered)
      invariant forall n :: n in ordered <==> n in names && n !in left
      invariant forall a, b :: a in ordered && b in left ==> Less(a, b)
      decreases left
    {
      var n := Least(left);
      ordered := ordered + [n];
      left := left - {n};
    }
  }

  lemma {:induction false} IncreasingIsUnique(a: seq<string>, b: seq<string>)
    requires Increasing(a) && Increasing(b) && forall n :: n in a <==> n in b
    ensures a == b
  {
    FirstIsMember(a);
    FirstIsMember(b);
    if a != [] {
      var i :| 0 <= i < |b| && b[i] == a[0];
      var j :| 0 <= j < |a| && a[j] == b[0];
      LessTotal(a[0], b[0]);
      assert a[0] == b[0];
      forall n ensures n in a[1..] <==> n in b[1..] {
        TailMembers(a, n);
        TailMembers(b, n);
      }
      IncreasingIsUnique(a[1..], b[1..]);
    }
  }

  lemma FirstIsMember(a: seq<string>)
    ensures a != [] ==> a[0] in a
  {
  }

  lemma TailMembers(a: seq<string>, n: string)
    requires a != [] && Increasing(a)
    ensures n in a[1..] <==> n in a && n != a[0]
  {
    LessTotal(a[0], a[0]);
    if n in a[1..] {
      var k :| 0 <= k < |a| - 1 && a[1..][k] == n;
      assert Less(a[0], a[k + 1]);
    }
  }

  // ----- The plan ------------------------------------------------------------------------------

  function Verdict(p: Platform, sub: Option<Row>, local: Option<Local>, protected: bool): Action {
    var action := ReconcileAction(p, sub, local);
    if action == Remove && protected then Skip else action
  }

  function Lookup<V>(m: map<string, V>, n: string): Option<V> {
    if n in m then Some(m[n]) else None
  }

  /** The plan for two keyed sets: one item a name, in increasing order, for exactly the substrate
      names and the stamped local names. */
  ghost predicate IsPlan(p: Platform, plan: seq<PlanItem>, subs: map<string, Row>, locals: map<string, Local>,
      protected: set<string>)
  {
    && Increasing(seq(|plan|, i requires 0 <= i < |plan| => plan[i].name))
    && (forall n :: InPlan(plan, n) <==> n in subs || (n in locals && locals[n].stamped))
    && (forall i :: 0 <= i < |plan| ==>
          plan[i] == PlanItem(plan[i].name,
            Verdict(p, Lookup(subs, plan[i].name), Lookup(locals, plan[i].name), plan[i].name in protected),
              Lookup(subs, plan[i].name)))
  }

  ghost predicate InPlan(plan: seq<PlanItem>, n: string) {
    exists i :: 0 <= i < |plan| && plan[i].name == n
  }

  /** reconcileSkills. */
  method ReconcileSkills(p: Platform, subs: seq<Row>, locals: seq<Local>, protected: set<string>)
    returns (plan: seq<PlanItem>)
    ensures IsPlan(p, plan, SubByName(subs), LocalByName(locals), protected)
  {
    hide SubByName, LocalByName, LocalSkillName, IsPlan;
    NoRows();
    NoLocals();
    var subByName: map<string, Row> := map[];
    assert subs[..0] == [] && locals[..0] == [];
    for i := 0 to |subs|
      invariant subByName == SubByName(subs[..i])
    {
      SubByNameStep(subs[..i], subs[i]);
      assert subs[..i + 1] == subs[..i] + [subs[i]];
      subByName := subByName[LocalSkillName(subs[i].name) := subs[i]];
    }
    assert subs[..|subs|] == subs;
    var localByName: map<string, Local> := map[];
    for i := 0 to |locals|
      invariant localByName == LocalByName(locals[..i])
    {
      LocalByNameStep(locals[..i], locals[i]);
      assert locals[..i + 1] == locals[..i] + [locals[i]];
      localByName := localByName[locals[i].name := locals[i]];
    }
    assert locals[..|locals|] == locals;
    plan := PlanOf(p, subByName, localByName, protected);
  }

  method PlanOf(p: Platform, subByName: map<string, Row>, localByName: map<string, Local>, protected: set<string>)
    returns (plan: seq<PlanItem>)
    ensures IsPlan(p, plan, subByName, localByName, protected)
  {
    var names := subByName.Keys + set n | n in localByName && localByName[n].stamped;
    var ordered := SortNames(names);
    plan := [];
    for i := 0 to |ordered|
      invariant |plan| == i
      invariant forall k :: 0 <= k < i ==>
        plan[k] == PlanItem(ordered[k],
          Verdict(p, Lookup(subByName, ordered[k]), Lookup(localByName, ordered[k]), ordered[k] in protected),
            Lookup(subByName, ordered[k]))
    {
      var n := ordered[i];
      var sub, local := Lookup(subByName, n), Lookup(localByName, n);
      var action := ReconcileAction(p, sub, local);
      if action == Remove && n in protected {
        action := Skip;
      }
      plan := plan + [PlanItem(n, action, sub)];
    }
    assert seq(|plan|, i requires 0 <= i < |plan| => plan[i].name) == ordered;
    forall n ensures InPlan(plan, n) <==> n in names {
      if n in names {
        assert n in ordered;
        var i :| 0 <= i < |ordered| && ordered[i] == n;
        assert plan[i].name == n;
      }
    }
  }

  /** The plan does not depend on the order in which rows and locals were listed: two listings with
      the same keyed maps have the same plan. */
  lemma PlanIsUnique(p: Platform, a: seq<PlanItem>, b: seq<PlanItem>, subs: map<string, Row>, locals: map<string,
      Local>, protected: set<string>)
    requires IsPlan(p, a, subs, locals, protected) && IsPlan(p, b, subs, locals, protected)
    ensures a == b
  {
    var na := seq(|a|, i requires 0 <= i < |a| => a[i].name);
    var nb := seq(|b|, i requires 0 <= i < |b| => b[i].name);
    forall n ensures n in na <==> n in nb {
      assert n in na <==> InPlan(a, n) by {
        if InPlan(a, n) {
          var i :| 0 <= i < |a| && a[i].name == n;
          assert na[i] == n;
        }
      }
      assert n in nb <==> InPlan(b, n) by {
        if InPlan(b, n) {
          var i :| 0 <= i < |b| && b[i].name == n;
          assert nb[i] == n;
        }
      }
    }
    IncreasingIsUnique(na, nb);
    assert forall i :: 0 <= i < |a| ==> a[i].name == na[i] == nb[i] == b[i].name;
  }

  /** `leave` is never planned: an unstamped local without a row is not in the plan at all. */
  lemma PlanNeverLeaves(p: Platform, plan: seq<PlanItem>, subs: map<string, Row>, locals: map<string, Local>,
      protected: set<string>)
    requires IsPlan(p, plan, subs, locals, protected)
    ensures forall i :: 0 <= i < |plan| ==> plan[i].action != LeaveUnstamped
  {
    forall i | 0 <= i < |plan| ensures plan[i].action != LeaveUnstamped {
      assert InPlan(plan, plan[i].name);
    }
  }
}
