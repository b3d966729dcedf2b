/** The skill tree on disk and the apply half of `skill sync`: what one run does to every directory,
    and what any sequence of runs keeps (internal/cli/cmd_skill_sync.go). */
module SkillTree {
  import opened Text
  import opened SkillStamp
  import opened Reconcile

  /** <root>/<name>/: the text of SKILL.md, if there is one, and the .bak files beside it, oldest first. */
  datatype Dir = Dir(skill: Option<string>, backups: seq<string>)

  type Tree = map<string, Dir>

  /** The conflict policy once the prompt is answered: for each name, whether to force. */
  type Choice = string -> bool

  /** The sync:true rows of each scope. */
  datatype Scopes = Scopes(library: seq<Row>, system: seq<Row>, workspace: seq<Row>, project: seq<Row>) {
    function LowToHigh(): seq<seq<Row>> {
      [library, system, workspace, project]
    }
  }

  datatype Scope = AllScopes | SystemOnly | WorkspaceOnly | ProjectOnly

  function InstallSet(sets: Scopes, scope: Scope): map<string, Row> {
    SubByName(match scope
      case AllScopes => Flatten(sets.LowToHigh())
      case SystemOnly => sets.system
      case WorkspaceOnly => sets.workspace
      case ProjectOnly => sets.project)
  }

  /** The local names of every resolvable scope. */
  function Owned(sets: Scopes): set<string> {
    SubByName(Flatten(sets.LowToHigh())).Keys
  }

  lemma NamesOfRows(rows: seq<Row>)
    ensures SubByName(rows).Keys == set k | 0 <= k < |rows| :: LocalSkillName(rows[k].name)
  {
    hide LocalSkillName;
    forall n ensures n in SubByName(rows) <==> exists k :: 0 <= k < |rows| && LocalSkillName(rows[k].name) == n {
      if n in SubByName(rows) {
        var k := KeptRowIsLast(rows, n);
      } else if exists k :: 0 <= k < |rows| && LocalSkillName(rows[k].name) == n {
        var k :| 0 <= k < |rows| && LocalSkillName(rows[k].name) == n;
        RowIsKept(rows, k);
      }
    }
  }

  lemma {:induction false} RowIsKept(rows: seq<Row>, k: nat)
    requires k < |rows|
    ensures LocalSkillName(rows[k].name) in SubByName(rows)
  {
    hide LocalSkillName;
    if k < |rows| - 1 {
      RowIsKept(rows[..|rows| - 1], k);
    }
  }

  class Skills {
    var dirs: Tree

    /** readLocalSkill. */
    method ReadLocalSkill(p: Platform, name: string) returns (local: Option<Local>)
      ensures local == LocalAt(p, dirs, name)
    {
      if name !in dirs || dirs[name].skill.None? {
        return None;
      }
      return Some(ReadLocal(p, name, dirs[name].skill.value));
    }

    /** readStampedLocalSkills: every directory with a stamped SKILL.md, in directory order. */
    method ReadStampedLocalSkills(p: Platform) returns (out: map<string, Local>)
      ensures out == StampedLocals(p, dirs)
    {
      out := map[];
      var left := dirs.Keys;
      while left != {}
        invariant left <= dirs.Keys
        invariant out == map n | n in dirs && n !in left && StampedAt(p, dirs, n) :: LocalAt(p, dirs, n).value
        decreases left
      {
        var n :| n in left;
        var local := ReadLocalSkill(p, n);
        if local.Some? && local.value.stamped {
          out := out[n := local.value];
        }
        left := left - {n};
      }
    }

    /** backupSkill: copy the current SKILL.md aside. */
    method BackupSkill(name: string)
      requires name in dirs && dirs[name].skill.Some?
      modifies this
      ensures dirs
        == old(dirs)[name := Dir(old(dirs)[name].skill, old(dirs)[name].backups + [old(dirs)[name].skill.value])]
    {
      dirs := dirs[name := dirs[name].(backups := dirs[name].backups + [dirs[name].skill.value])];
    }

    /** applySyncItem. */
    method ApplySyncItem(p: Platform, item: PlanItem)
      requires item.action in {Install, Update, MatchUnstamped, Migrate} ==> item.sub.Some?
      modifies this
      ensures dirs == Put(old(dirs), item.name, Applied(p, item.action, item.sub, DirAt(old(dirs), item.name)))
    {
      hide Materialise;
      match item.action
      case Install | Update | MatchUnstamped | Migrate =>
        var d := if item.name in dirs then dirs[item.name] else Dir(None, []);  // MkdirAll
        dirs := dirs[item.name := d.(skill := Some(Materialise(p, item.sub.value)))];
      case Remove =>
        dirs := dirs - {item.name};  // RemoveAll
      case Skip | Conflict | LeaveUnstamped =>
        PutSame(dirs, item.name);
    }

    /** resolveConflict under a settled choice. */
    method ResolveConflict(p: Platform, force: bool, item: PlanItem)
      requires item.name in dirs && dirs[item.name].skill.Some?
      modifies this
      ensures dirs == Put(old(dirs), item.name, Resolved(p, force, item.sub, DirAt(old(dirs), item.name)))
    {
      if force && item.sub.Some? {
        BackupSkill(item.name);
        ApplySyncItem(p, PlanItem(item.name, Update, item.sub));
      } else {
        PutSame(dirs, item.name);
      }
    }

    /** syncSkills: the local copy of every row, plus every stamped local skill. */
    method ReadLocals(p: Platform, subs: seq<Row>) returns (localByName: map<string, Local>)
      ensures LocalsOf(p, dirs, SubByName(subs), localByName)
    {
      hide LocalAt, LocalSkillName, SubByName, LocalsOf;
      localByName := map[];
      for i := 0 to |subs|
        invariant forall n :: n in localByName ==> LocalAt(p, dirs, n) == Some(localByName[n])
        invariant forall k ::
          0 <= k < i && LocalAt(p, dirs, LocalSkillName(subs[k].name)).Some? ==>
            LocalSkillName(subs[k].name) in localByName
      {
        var ln := LocalSkillName(subs[i].name);
        var l := ReadLocalSkill(p, ln);
        if l.Some? {
          localByName := localByName[ln := l.value];
        }
      }
      var stamped := ReadStampedLocalSkills(p);
      StampedIsRead(p, dirs);
      localByName := stamped + localByName;
      LocalsRead(p, dirs, subs, localByName);
    }

    /** syncSkills, from the listed rows on: read the locals, plan, apply.  `subs` is the install set
        --scope selects, `protected` the local names of every scope. */
    method SyncSkills(p: Platform, subs: seq<Row>, protected: set<string>, choose: Choice)
      modifies this
      ensures RunsTo(p, old(dirs), SubByName(subs), protected, choose, dirs)
    {
      hide LocalsOf, LocalAt, SubByName, LocalByName, RunsTo, PlanFor, IsPlan;
      var localByName := ReadLocals(p, subs);
      LocalsCarryNames(p, dirs, SubByName(subs), localByName);
      var locals := Listed(localByName);
      var plan := ReconcileSkills(p, subs, locals, protected);
      PlanMatchesTree(p, dirs, SubByName(subs), localByName, protected, plan);
      ApplyPlan(p, SubByName(subs), protected, choose, plan);
    }

    /** syncSkills as a whole: the install set --scope selects, every scope's names guarding removal. */
    method SyncScopes(p: Platform, sets: Scopes, scope: Scope, choose: Choice)
      modifies this
      ensures RunsTo(p, old(dirs), InstallSet(sets, scope), Owned(sets), choose, dirs)
    {
      hide RunsTo, SubByName, Flatten;
      var union := MergeByPrecedence(sets.LowToHigh());
      var protected: set<string> := {};
      for i := 0 to |union|
        invariant dirs == old(dirs) && protected == set k | 0 <= k < i :: LocalSkillName(union[k].name)
      {
        protected := protected + {LocalSkillName(union[i].name)};
      }
      NamesOfRows(union);
      var subs := match scope
        case AllScopes => union
        case SystemOnly => sets.system
        case WorkspaceOnly => sets.workspace
        case ProjectOnly => sets.project;
      SyncSkills(p, subs, protected, choose);
    }

    /** The locals map as the slice reconcileSkills takes. */
    method Listed(m: map<string, Local>) returns (locals: seq<Local>)
      requires forall n :: n in m ==> m[n].name == n
      ensures LocalByName(locals) == m
    {
      hide LocalByName;
      NoLocals();
      locals := [];
      var left := m.Keys;
      while left != {}
        invariant left <= m.Keys && LocalByName(locals) == map n | n in m && n !in left :: m[n]
        decreases left
      {
        var n :| n in left;
        LocalByNameStep(locals, m[n]);
        locals := locals + [m[n]];
        left := left - {n};
      }
    }

    /** The apply loop: every item touches its own directory only. */
    method ApplyPlan(p: Platform, ghost subs: map<string, Row>, ghost protected: set<string>, choose: Choice,
        plan: seq<PlanItem>)
      requires PlanFor(p, dirs, subs, protected, plan)
      modifies this
      ensures RunsTo(p, old(dirs), subs, protected, choose, dirs)
    {
      hide Next, InPlan, VerdictAt;
      NothingNamed(plan);
      for i := 0 to |plan|
        invariant forall n :: InPlan(plan[..i], n) ==> DirAt(dirs, n) == Next(p, old(dirs), subs, protected, choose, n)
        invariant forall n :: !InPlan(plan[..i], n) ==> DirAt(dirs, n) == DirAt(old(dirs), n)
      {
        var item := plan[i];
        NamedStep(plan, i);
        assert DirAt(dirs, item.name) == DirAt(old(dirs), item.name);
        ItemIsNext(p, old(dirs), subs, protected, choose, item);
        if item.action == Conflict {
          ResolveConflict(p, choose(item.name), item);
        } else {
          ApplySyncItem(p, item);
        }
      }
      assert plan[..|plan|] == plan;
      NotInPlanIsSame(p, old(dirs), subs, protected, choose, plan);
    }
  }

  // ----- The tree as a function of a name ------------------------------------------------------

  function DirAt(t: Tree, n: string): Option<Dir> {
    if n in t then Some(t[n]) else None
  }

  function Put(t: Tree, n: string, d: Option<Dir>): (r: Tree)
    ensures DirAt(r, n) == d && forall m :: m != n ==> DirAt(r, m) == DirAt(t, m)
  {
    if d.Some? then t[n := d.value] else t - {n}
  }

  lemma TreesEqual(a: Tree, b: Tree)
    requires forall n :: DirAt(a, n) == DirAt(b, n)
    ensures a == b
  {
    forall n ensures n in a <==> n in b {
      assert DirAt(a, n) == DirAt(b, n);
    }
    forall n | n in a ensures a[n] == b[n] {
      assert DirAt(a, n) == DirAt(b, n);
    }
  }

  lemma PutSame(t: Tree, n: string)
    ensures Put(t, n, DirAt(t, n)) == t
  {
  }

  /** The text of SKILL.md under a name. */
  function SkillText(t: Tree, n: string): Option<string> {
    if n in t then t[n].skill else None
  }

  function LocalAt(p: Platform, t: Tree, n: string): Option<Local> {
    var text := SkillText(t, n);
    if text.None? then None else Some(ReadLocal(p, n, text.value))
  }

  predicate StampedAt(p: Platform, t: Tree, n: string) {
    LocalAt(p, t, n).Some? && LocalAt(p, t, n).value.stamped
  }

  function StampedLocals(p: Platform, t: Tree): map<string, Local> {
    map n | n in t && StampedAt(p, t, n) :: LocalAt(p, t, n).value
  }

  /** What applySyncItem leaves under a name. */
  function Applied(p: Platform, action: Action, sub: Option<Row>, d: Option<Dir>): Option<Dir>
    requires action in {Install, Update, MatchUnstamped, Migrate} ==> sub.Some?
  {
    match action
    case Install | Update | MatchUnstamped | Migrate =>
      Some(Dir(Some(Materialise(p, sub.value)), if d.Some? then d.value.backups else []))
    case Remove => None
    case Skip | Conflict | LeaveUnstamped => d
  }

  /** What resolveConflict leaves under a name. */
  function Resolved(p: Platform, force: bool, sub: Option<Row>, d: Option<Dir>): Option<Dir>
    requires d.Some? && d.value.skill.Some?
  {
    if force && sub.Some? then
      Some(Dir(Some(Materialise(p, sub.value)), d.value.backups + [d.value.skill.value]))
    else d
  }

  /** The verdict a run reaches for a name, None when the name is not in its plan. */
  function VerdictAt(p: Platform, t: Tree, subs: map<string, Row>, protected: set<string>, n: string): Option<Action> {
    if n in subs || StampedAt(p, t, n)
    then Some(Verdict(p, Lookup(subs, n), LocalAt(p, t, n), n in protected)) else None
  }

  /** What one run leaves under a name. */
  function Next(p: Platform, t: Tree, subs: map<string, Row>, protected: set<string>, choose: Choice,
      n: string): Option<Dir>
  {
    var v := VerdictAt(p, t, subs, protected, n);
    if v.None? then DirAt(t, n)
    else if v.value == Conflict then Resolved(p, choose(n), Lookup(subs, n), DirAt(t, n))
    else Applied(p, v.value, Lookup(subs, n), DirAt(t, n))
  }

  /** Under a name, the tree `after` holds what a run leaves there. */
  predicate Becomes(p: Platform, t: Tree, subs: map<string, Row>, protected: set<string>, choose: Choice,
      after: Tree, n: string)
  {
    DirAt(after, n) == Next(p, t, subs, protected, choose, n)
  }

  /** One run takes the tree `t` to the tree `after`. */
  ghost predicate RunsTo(p: Platform, t: Tree, subs: map<string, Row>, protected: set<string>, choose: Choice,
      after: Tree)
  {
    forall n {:trigger Becomes(p, t, subs, protected, choose, after, n)} ::
      Becomes(p, t, subs, protected, choose, after, n)
  }

  /** A run has one outcome. */
  lemma RunsToOneTree(p: Platform, t: Tree, subs: map<string, Row>, protected: set<string>, choose: Choice, a: Tree,
      b: Tree)
    requires RunsTo(p, t, subs, protected, choose, a) && RunsTo(p, t, subs, protected, choose, b)
    ensures a == b
  {
    hide Next;
    forall n ensures DirAt(a, n) == DirAt(b, n) {
      assert Becomes(p, t, subs, protected, choose, a, n) && Becomes(p, t, subs, protected, choose, b, n);
    }
    TreesEqual(a, b);
  }

  /** And it has an outcome, on every tree, for all rows and answers. */
  lemma RunHasOutcome(p: Platform, t: Tree, subs: map<string, Row>, protected: set<string>, choose: Choice)
    returns (after: Tree)
    ensures RunsTo(p, t, subs, protected, choose, after)
  {
    hide ReadLocal, Materialise;
    after := map n | n in t.Keys + subs.Keys && Next(p, t, subs, protected, choose, n).Some? ::
      Next(p, t, subs, protected, choose, n).value;
  }

  lemma LeftByRun(p: Platform, t: Tree, subs: map<string, Row>, protected: set<string>, choose: Choice, after: Tree,
      n: string)
    requires RunsTo(p, t, subs, protected, choose, after)
    ensures DirAt(after, n) == Next(p, t, subs, protected, choose, n)
  {
    assert Becomes(p, t, subs, protected, choose, after, n);
  }

  // ----- The plan and the tree -----------------------------------------------------------------

  /** Each name once, exactly the names with a verdict, each item carrying that verdict. */
  ghost predicate PlanFor(p: Platform, t: Tree, subs: map<string, Row>, protected: set<string>, plan: seq<PlanItem>) {
    && (forall i, j :: 0 <= i < j < |plan| ==> plan[i].name != plan[j].name)
    && (forall n :: InPlan(plan, n) <==> VerdictAt(p, t, subs, protected, n).Some?)
    && (forall i :: 0 <= i < |plan| ==>
          VerdictAt(p, t, subs, protected, plan[i].name) == Some(plan[i].action)
            && plan[i].sub == Lookup(subs, plan[i].name))
  }

  lemma NothingNamed(plan: seq<PlanItem>)
    ensures forall n :: !InPlan(plan[..0], n)
  {
  }

  /** Applying or resolving an item with the directory as it was gives what the run leaves there. */
  lemma ItemIsNext(p: Platform, t: Tree, subs: map<string, Row>, protected: set<string>, choose: Choice, item: PlanItem)
    requires VerdictAt(p, t, subs, protected, item.name) == Some(item.action) && item.sub == Lookup(subs, item.name)
    ensures item.action == Conflict ==> item.name in t && t[item.name].skill.Some?
    ensures item.action == Conflict ==>
      Next(p, t, subs, protected, choose, item.name) == Resolved(p, choose(item.name), item.sub, DirAt(t, item.name))
    ensures item.action in {Install, Update, MatchUnstamped, Migrate} ==> item.sub.Some?
    ensures item.action != Conflict ==>
      Next(p, t, subs, protected, choose, item.name) == Applied(p, item.action, item.sub, DirAt(t, item.name))
  {
    hide ReadLocal, Materialise;
  }

  lemma NotInPlanIsSame(p: Platform, t: Tree, subs: map<string, Row>, protected: set<string>, choose: Choice,
      plan: seq<PlanItem>)
    requires PlanFor(p, t, subs, protected, plan)
    ensures forall n :: !InPlan(plan, n) ==> Next(p, t, subs, protected, choose, n) == DirAt(t, n)
  {
    hide ReadLocal, Materialise;
  }

  lemma StampedIsRead(p: Platform, t: Tree)
    ensures forall n :: n in StampedLocals(p, t) ==> LocalAt(p, t, n) == Some(StampedLocals(p, t)[n])
    ensures forall n :: StampedAt(p, t, n) ==> n in StampedLocals(p, t)
  {
    hide ReadLocal;
  }

  lemma LocalsCarryNames(p: Platform, t: Tree, subs: map<string, Row>, locals: map<string, Local>)
    requires LocalsOf(p, t, subs, locals)
    ensures forall n :: n in locals ==> locals[n].name == n
  {
    forall n | n in locals ensures locals[n].name == n {
      assert LocalAt(p, t, n) == Some(locals[n]);
    }
  }

  lemma NamedStep(plan: seq<PlanItem>, i: nat)
    requires i < |plan| && forall j, k :: 0 <= j < k < |plan| ==> plan[j].name != plan[k].name
    ensures !InPlan(plan[..i], plan[i].name)
    ensures forall n :: InPlan(plan[..i + 1], n) <==> InPlan(plan[..i], n) || n == plan[i].name
    ensures InPlan(plan, plan[i].name)
  {
    forall n | InPlan(plan[..i], n) ensures InPlan(plan[..i + 1], n) {
      var j :| 0 <= j < i && plan[..i][j].name == n;
      assert plan[..i + 1][j].name == n;
    }
    forall n | InPlan(plan[..i + 1], n) && n != plan[i].name ensures InPlan(plan[..i], n) {
      var j :| 0 <= j < i + 1 && plan[..i + 1][j].name == n;
      assert plan[..i][j].name == n;
    }
    assert plan[..i + 1][i].name == plan[i].name;
  }

  /** The locals handed to the plan agree with the tree: on every row's name, and on what is stamped. */
  ghost predicate LocalsOf(p: Platform, t: Tree, subs: map<string, Row>, locals: map<string, Local>) {
    && (forall n :: n in locals ==> LocalAt(p, t, n) == Some(locals[n]))
    && (forall n :: n in subs ==> Lookup(locals, n) == LocalAt(p, t, n))
    && (forall n :: StampedAt(p, t, n) ==> n in locals)
  }

  lemma RowNamesItsKey(subs: seq<Row>, n: string) returns (k: nat)
    requires n in SubByName(subs)
    ensures k < |subs| && LocalSkillName(subs[k].name) == n
  {
    k := KeptRowIsLast(subs, n);
  }

  lemma LocalsRead(p: Platform, t: Tree, subs: seq<Row>, locals: map<string, Local>)
    requires forall n :: n in locals ==> LocalAt(p, t, n) == Some(locals[n])
    requires forall k ::
      0 <= k < |subs| && LocalAt(p, t, LocalSkillName(subs[k].name)).Some? ==> LocalSkillName(subs[k].name) in locals
    requires forall n :: StampedAt(p, t, n) ==> n in locals
    ensures LocalsOf(p, t, SubByName(subs), locals)
  {
    hide SubByName, LocalSkillName, LocalAt;
    var m := SubByName(subs);
    forall n | n in m ensures Lookup(locals, n) == LocalAt(p, t, n) {
      var k := RowNamesItsKey(subs, n);
      assert LocalAt(p, t, LocalSkillName(subs[k].name)).Some? ==> n in locals;
    }
  }

  lemma VerdictFromLocals(p: Platform, t: Tree, subs: map<string, Row>, locals: map<string, Local>,
      protected: set<string>, n: string)
    requires LocalsOf(p, t, subs, locals)
    ensures VerdictAt(p, t, subs, protected, n).Some? <==> n in subs || (n in locals && locals[n].stamped)
    ensures VerdictAt(p, t, subs, protected, n).Some? ==>
      VerdictAt(p, t, subs, protected, n).value == Verdict(p, Lookup(subs, n), Lookup(locals, n), n in protected)
  {
    assert n in locals ==> LocalAt(p, t, n) == Some(locals[n]);
    assert StampedAt(p, t, n) ==> n in locals;
    assert n in subs ==> Lookup(locals, n) == LocalAt(p, t, n);
  }

  lemma PlanMatchesTree(p: Platform, t: Tree, subs: map<string, Row>, locals: map<string, Local>,
      protected: set<string>, plan: seq<PlanItem>)
    requires IsPlan(p, plan, subs, locals, protected) && LocalsOf(p, t, subs, locals)
    ensures PlanFor(p, t, subs, protected, plan)
  {
    var names := seq(|plan|, i requires 0 <= i < |plan| => plan[i].name);
    forall n ensures InPlan(plan, n) <==> VerdictAt(p, t, subs, protected, n).Some? {
      VerdictFromLocals(p, t, subs, locals, protected, n);
    }
    forall i, j | 0 <= i < j < |plan| ensures plan[i].name != plan[j].name {
      assert Less(names[i], names[j]);
      LessTotal(names[i], names[j]);
    }
    forall i | 0 <= i < |plan|
      ensures VerdictAt(p, t, subs, protected, plan[i].name) == Some(plan[i].action)
        && plan[i].sub == Lookup(subs, plan[i].name)
    {
      assert InPlan(plan, plan[i].name);
      VerdictFromLocals(p, t, subs, locals, protected, plan[i].name);
    }
  }
}
