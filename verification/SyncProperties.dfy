/** What any run of `skill sync`, and any two runs in a row, guarantee about the files on disk. */
module SyncProperties {
  import opened Text
  import opened SkillStamp
  import opened Reconcile
  import opened SkillTree

  type Rows = map<string, Row>

  function AuthoredText(p: Platform, text: string): string {
    SplitStamp(p, text).authored
  }

  /** A stamped file whose authored body still has the hash it was stamped with. */
  predicate Unedited(p: Platform, text: string) {
    SplitStamp(p, text).ok && p.hash(AuthoredText(p, text)) == SplitStamp(p, text).stamp.hash
  }

  /** The hash tells these two bodies apart, or they are one body. */
  predicate NoCollision(p: Platform, a: string, b: string) {
    p.hash(a) == p.hash(b) ==> a == b
  }

  /** This run writes the row's file under `n`. */
  predicate Writes(p: Platform, t: Tree, subs: Rows, protected: set<string>, choose: Choice, n: string) {
    var v := VerdictAt(p, t, subs, protected, n);
    n in subs && v.Some?
      && (v.value in {Install, Update, MatchUnstamped, Migrate} || (v.value == Conflict && choose(n)))
  }

  predicate Removes(p: Platform, t: Tree, subs: Rows, protected: set<string>, n: string) {
    VerdictAt(p, t, subs, protected, n) == Some(Remove)
  }

  /** A run does one of three things under a name: write the row's file, remove the directory, or nothing. */
  lemma RunTrichotomy(p: Platform, t: Tree, subs: Rows, protected: set<string>, choose: Choice, n: string)
    ensures Writes(p, t, subs, protected, choose, n) ==>
      Next(p, t, subs, protected, choose, n).Some?
        && Next(p, t, subs, protected, choose, n).value.skill == Some(Materialise(p, subs[n]))
    ensures Removes(p, t, subs, protected, n) ==> Next(p, t, subs, protected, choose, n) == None && n !in subs
    ensures !Writes(p, t, subs, protected, choose, n) && !Removes(p, t, subs, protected, n) ==>
      Next(p, t, subs, protected, choose, n) == DirAt(t, n)
  {
    hide Materialise, ReadLocal;
  }

  lemma SameTextSameVerdict(p: Platform, t: Tree, u: Tree, subs: Rows, protected: set<string>, n: string)
    requires SkillText(t, n) == SkillText(u, n)
    ensures VerdictAt(p, t, subs, protected, n) == VerdictAt(p, u, subs, protected, n)
  {
    hide ReadLocal, ReconcileAction;
  }

  // ----- Convergence ---------------------------------------------------------------------------

  /** A second run over the same rows, with the same conflict choices, leaves every SKILL.md
      byte-identical: for every row, every local file, every codec and hash. */
  lemma SecondRunKeepsEveryFile(p: Platform, t: Tree, subs: Rows, protected: set<string>, choose: Choice, once: Tree,
      twice: Tree, n: string)
    requires RunsTo(p, t, subs, protected, choose, once) && RunsTo(p, once, subs, protected, choose, twice)
    ensures SkillText(twice, n) == SkillText(once, n)
  {
    hide Materialise, Writes, Removes, VerdictAt, Next, RunsTo;
    LeftByRun(p, t, subs, protected, choose, once, n);
    LeftByRun(p, once, subs, protected, choose, twice, n);
    RunTrichotomy(p, t, subs, protected, choose, n);
    RunTrichotomy(p, once, subs, protected, choose, n);
    if Writes(p, t, subs, protected, choose, n) {
      WritesARow(p, t, subs, protected, choose, n);
    } else if !Removes(p, t, subs, protected, n) {
      SameTextSameVerdict(p, t, once, subs, protected, n);
      RemovesIsByVerdict(p, t, once, subs, protected, n);
      WritesIsByVerdict(p, t, once, subs, protected, choose, n);
    } else {
      GoneStaysGone(p, once, subs, protected, choose, n);
    }
  }

  lemma GoneStaysGone(p: Platform, t: Tree, subs: Rows, protected: set<string>, choose: Choice, n: string)
    requires n !in subs && n !in t
    ensures Next(p, t, subs, protected, choose, n) == None
  {
    hide ReadLocal;
  }

  lemma RemovesIsByVerdict(p: Platform, t: Tree, u: Tree, subs: Rows, protected: set<string>, n: string)
    requires VerdictAt(p, t, subs, protected, n) == VerdictAt(p, u, subs, protected, n)
    ensures Removes(p, t, subs, protected, n) == Removes(p, u, subs, protected, n)
  {
  }

  lemma WritesIsByVerdict(p: Platform, t: Tree, u: Tree, subs: Rows, protected: set<string>, choose: Choice, n: string)
    requires VerdictAt(p, t, subs, protected, n) == VerdictAt(p, u, subs, protected, n)
    ensures Writes(p, t, subs, protected, choose, n) == Writes(p, u, subs, protected, choose, n)
  {
  }

  /** The verdict the next run reaches for a row whose file a run has just written. */
  function VerdictAfterWrite(p: Platform, s: Row): Action {
    if Glued(s.body) then
      if p.hash(Materialise(p, s)) == p.hash(s.body) then MatchUnstamped else Conflict
    else if s.documentId == "" then MatchUnstamped
    else if !FrontOf(s.body).found then Migrate
    else Skip
  }

  lemma FreshFileVerdict(p: Platform, n: string, s: Row)
    requires LawfulAt(p, StampOf(p, s))
    ensures ReconcileAction(p, Some(s), Some(ReadLocal(p, n, Materialise(p, s)))) == VerdictAfterWrite(p, s)
  {
    hide SplitStamp, Materialise, FrontOf, LawfulAt, Glued;
    PrintThenParse(p, s);
  }

  lemma VerdictOnReread(p: Platform, t: Tree, subs: Rows, protected: set<string>, n: string, text: string)
    requires n in subs && SkillText(t, n) == Some(text)
    ensures VerdictAt(p, t, subs, protected, n) == Some(ReconcileAction(p, Some(subs[n]), Some(ReadLocal(p, n, text))))
  {
    hide ReadLocal;
  }

  /** Every name a run writes is planned `current` by the next run exactly when its row has a document
      id and a complete frontmatter block; the other rows never settle at `current`. */
  lemma WrittenThenCurrent(p: Platform, t: Tree, subs: Rows, protected: set<string>, choose: Choice, once: Tree,
      n: string)
    requires RunsTo(p, t, subs, protected, choose, once)
    requires Writes(p, t, subs, protected, choose, n) && LawfulAt(p, StampOf(p, subs[n]))
    ensures VerdictAt(p, once, subs, protected, n) == Some(VerdictAfterWrite(p, subs[n]))
    ensures VerdictAt(p, once, subs, protected, n) == Some(Skip)
      <==> subs[n].documentId != "" && FrontOf(subs[n].body).found && EndsLine(FrontOf(subs[n].body).head)
  {
    hide Materialise, Writes, VerdictAt, Next, RunsTo, ReconcileAction, ReadLocal, FrontOf, LawfulAt, EndsLine;
    assert n in subs by { WritesARow(p, t, subs, protected, choose, n); }
    RunTrichotomy(p, t, subs, protected, choose, n);
    LeftByRun(p, t, subs, protected, choose, once, n);
    VerdictOnReread(p, once, subs, protected, n, Materialise(p, subs[n]));
    FreshFileVerdict(p, n, subs[n]);
  }

  lemma WritesARow(p: Platform, t: Tree, subs: Rows, protected: set<string>, choose: Choice, n: string)
    requires Writes(p, t, subs, protected, choose, n)
    ensures n in subs
  {
  }

  // ----- What a run leaves, said of the texts --------------------------------------------------

  /** A row without a SKILL.md under its name is installed. */
  lemma RowWithoutFileIsInstalled(p: Platform, t: Tree, subs: Rows, protected: set<string>, choose: Choice,
      once: Tree, n: string)
    requires RunsTo(p, t, subs, protected, choose, once)
    requires n in subs && SkillText(t, n).None?
    ensures DirAt(once, n) == Some(Dir(Some(Materialise(p, subs[n])), if n in t then t[n].backups else []))
  {
    hide Materialise, RunsTo;
    LeftByRun(p, t, subs, protected, choose, once, n);
  }

  /** An unedited stamped file follows its row: it is rewritten when the row has a newer version, when the
      two document ids are set and differ, and when its stamp stands in front of everything; in every other
      case it stays byte for byte. */
  lemma UneditedFileFollowsRow(p: Platform, t: Tree, subs: Rows, protected: set<string>, choose: Choice,
      once: Tree, n: string, text: string)
    requires RunsTo(p, t, subs, protected, choose, once)
    requires n in subs && SkillText(t, n) == Some(text)
    requires var r := SplitStamp(p, text); r.ok && p.hash(r.authored) == r.stamp.hash
    ensures var (s, r) := (subs[n], SplitStamp(p, text));
      var replaced := s.documentId != "" && r.stamp.documentId != "" && s.documentId != r.stamp.documentId;
      DirAt(once, n) == Some(Dir(
        Some(if s.version > r.stamp.version || replaced || r.legacy then Materialise(p, s) else text), t[n].backups))
  {
    hide Materialise, SplitStamp, RunsTo;
    LeftByRun(p, t, subs, protected, choose, once, n);
  }

  /** A file that is no stamped one, or an edited one, is adopted when it is unstamped and its body has the
      hash of the row's; otherwise it is overwritten, and backed up, exactly when that is the choice. */
  lemma AuthoredFileMeetsRow(p: Platform, t: Tree, subs: Rows, protected: set<string>, choose: Choice,
      once: Tree, n: string, text: string)
    requires RunsTo(p, t, subs, protected, choose, once)
    requires n in subs && SkillText(t, n) == Some(text)
    requires var r := SplitStamp(p, text); !(r.ok && p.hash(r.authored) == r.stamp.hash)
    ensures var (s, r) := (subs[n], SplitStamp(p, text));
      DirAt(once, n) == Some(
        if !r.ok && p.hash(r.authored) == p.hash(s.body) then Dir(Some(Materialise(p, s)), t[n].backups)
        else if choose(n) then Dir(Some(Materialise(p, s)), t[n].backups + [text])
        else t[n])
  {
    hide Materialise, SplitStamp, RunsTo;
    LeftByRun(p, t, subs, protected, choose, once, n);
  }

  /** Without a row, a directory goes when its file is stamped, unedited and claimed by no scope, and is left
      alone otherwise. */
  lemma FileWithoutRow(p: Platform, t: Tree, subs: Rows, protected: set<string>, choose: Choice, once: Tree,
      n: string)
    requires RunsTo(p, t, subs, protected, choose, once)
    requires n !in subs
    ensures DirAt(once, n) == match SkillText(t, n)
      case None => DirAt(t, n)
      case Some(text) =>
        var r := SplitStamp(p, text);
        if r.ok && p.hash(r.authored) == r.stamp.hash && n !in protected then None else DirAt(t, n)
  {
    hide Materialise, SplitStamp, RunsTo;
    LeftByRun(p, t, subs, protected, choose, once, n);
  }

  // ----- Operator text -------------------------------------------------------------------------

  /** Whatever the policy, a file that a run changes or removes was an unedited stamped file, or was
      adopted for having the row's own body hash, or its exact bytes are in the backups. */
  lemma NoTextIsLost(p: Platform, t: Tree, subs: Rows, protected: set<string>, choose: Choice, once: Tree, n: string,
      text: string)
    requires RunsTo(p, t, subs, protected, choose, once)
    requires SkillText(t, n) == Some(text) && SkillText(once, n) != Some(text)
    ensures
      || Unedited(p, text)
      || (!SplitStamp(p, text).ok && n in subs && p.hash(AuthoredText(p, text)) == p.hash(subs[n].body))
      || (n in once && once[n].backups == t[n].backups + [text])
  {
    hide Materialise, SplitStamp, RunsTo;
    LeftByRun(p, t, subs, protected, choose, once, n);
  }

  /** Keeping local edits: a file the operator wrote or edited is left byte for byte, unless it is
      adopted; adoption writes the row's file, and then the authored body is the same afterwards
      exactly when the row's frontmatter is not glued to the end of its body. */
  lemma LocalPolicyKeepsAuthoredText(p: Platform, t: Tree, subs: Rows, protected: set<string>, choose: Choice,
      once: Tree, n: string, text: string)
    requires RunsTo(p, t, subs, protected, choose, once)
    requires !choose(n) && (n in subs ==> LawfulAt(p, StampOf(p, subs[n])))
    requires SkillText(t, n) == Some(text) && !Unedited(p, text)
    requires n in subs ==> NoCollision(p, AuthoredText(p, text), subs[n].body)
    ensures var after := SkillText(once, n);
      var adopted := n in subs && !SplitStamp(p, text).ok && p.hash(AuthoredText(p, text)) == p.hash(subs[n].body);
      && after.Some?
      && (!adopted ==> after == Some(text))
      && (adopted ==> n in subs && after == Some(Materialise(p, subs[n])))
      && (adopted ==> (AuthoredText(p, after.value) == AuthoredText(p, text) <==> !Glued(subs[n].body)))
  {
    hide Materialise, SplitStamp, RunsTo, LawfulAt, Glued;
    LeftByRun(p, t, subs, protected, choose, once, n);
    if n in subs && !SplitStamp(p, text).ok && p.hash(AuthoredText(p, text)) == p.hash(subs[n].body) {
      PrintThenParse(p, subs[n]);
      if Glued(subs[n].body) {
        PrintedGlued(p, subs[n]);
      }
    }
  }

  /** Forcing: the exact old bytes go to a new backup, and the row's file takes their place. */
  lemma ForceBacksUpThenOverwrites(p: Platform, t: Tree, subs: Rows, protected: set<string>, choose: Choice,
      once: Tree, n: string, text: string)
    requires RunsTo(p, t, subs, protected, choose, once)
    requires choose(n) && n in subs
    requires SkillText(t, n) == Some(text) && !Unedited(p, text)
    requires SplitStamp(p, text).ok || p.hash(AuthoredText(p, text)) != p.hash(subs[n].body)
    ensures DirAt(once, n) == Some(Dir(Some(Materialise(p, subs[n])), t[n].backups + [text]))
  {
    hide Materialise, SplitStamp, RunsTo;
    LeftByRun(p, t, subs, protected, choose, once, n);
  }

  /** A name with neither a row nor a stamp is never touched. */
  lemma OperatorSkillsUntouched(p: Platform, t: Tree, subs: Rows, protected: set<string>, choose: Choice, once: Tree,
      n: string)
    requires RunsTo(p, t, subs, protected, choose, once)
    requires n !in subs && (SkillText(t, n).None? || !SplitStamp(p, SkillText(t, n).value).ok)
    ensures DirAt(once, n) == DirAt(t, n)
  {
    hide Materialise, SplitStamp, RunsTo;
    LeftByRun(p, t, subs, protected, choose, once, n);
  }

  // ----- Removal -------------------------------------------------------------------------------

  /** This row's name is claimed by some scope. */
  ghost predicate Claimed(rows: seq<Row>, n: string) {
    exists k :: 0 <= k < |rows| && LocalSkillName(rows[k].name) == n
  }

  lemma OwnedIsClaimed(sets: Scopes, n: string)
    ensures n in Owned(sets) <==>
      Claimed(sets.library, n) || Claimed(sets.system, n) || Claimed(sets.workspace, n) || Claimed(sets.project, n)
  {
    hide SubByName, LocalSkillName, Flatten;
    var all := sets.library + sets.system + sets.workspace + sets.project;
    FlattenFour(sets);
    NamesOfRows(all);
    ClaimedAppend(sets.library, sets.system, n);
    ClaimedAppend(sets.library + sets.system, sets.workspace, n);
    ClaimedAppend(sets.library + sets.system + sets.workspace, sets.project, n);
    assert n in SubByName(all).Keys <==> Claimed(all, n);
  }

  lemma FlattenFour(sets: Scopes)
    ensures Flatten(sets.LowToHigh()) == sets.library + sets.system + sets.workspace + sets.project
  {
    var l := sets.LowToHigh();
    assert l[..3][..2] == [sets.library, sets.system] && l[..3] == [sets.library, sets.system, sets.workspace];
    assert [sets.library, sets.system][..1] == [sets.library];
    assert Flatten([sets.library]) == sets.library;
    assert Flatten([sets.library, sets.system]) == sets.library + sets.system;
  }

  lemma ClaimedAppend(a: seq<Row>, b: seq<Row>, n: string)
    ensures Claimed(a + b, n) <==> Claimed(a, n) || Claimed(b, n)
  {
    hide LocalSkillName;
    if Claimed(a, n) {
      var k :| 0 <= k < |a| && LocalSkillName(a[k].name) == n;
      assert (a + b)[k] == a[k];
    }
    if Claimed(b, n) {
      var k :| 0 <= k < |b| && LocalSkillName(b[k].name) == n;
      assert (a + b)[|a| + k] == b[k];
    }
  }

  /** The row of a name in some rows: the last one, by LastRowIsKept and KeptRowIsLast. */
  function RowNamed(rows: seq<Row>, n: string): Option<Row> {
    Lookup(SubByName(rows), n)
  }

  /** What is installed under a name: the row of the scope --scope names, or, for all of them, that of the
      project, else of the workspace, else of the system, else of the library; of several rows of one scope
      the last. */
  lemma InstallsNearestScope(sets: Scopes, scope: Scope, n: string)
    ensures Lookup(InstallSet(sets, scope), n) == match scope
      case SystemOnly => RowNamed(sets.system, n)
      case WorkspaceOnly => RowNamed(sets.workspace, n)
      case ProjectOnly => RowNamed(sets.project, n)
      case AllScopes =>
        if RowNamed(sets.project, n).Some? then RowNamed(sets.project, n)
        else if RowNamed(sets.workspace, n).Some? then RowNamed(sets.workspace, n)
        else if RowNamed(sets.system, n).Some? then RowNamed(sets.system, n)
        else RowNamed(sets.library, n)
  {
    hide SubByName, LocalSkillName, Flatten;
    FlattenFour(sets);
    SubByNameAppend(sets.library, sets.system);
    SubByNameAppend(sets.library + sets.system, sets.workspace);
    SubByNameAppend(sets.library + sets.system + sets.workspace, sets.project);
  }

  /** Whatever --scope selects, a directory is deleted exactly when its SKILL.md is stamped and
      unedited and no scope, library to project, has a row for its name. */
  lemma RemovedExactlyWhenOrphaned(p: Platform, t: Tree, sets: Scopes, scope: Scope, choose: Choice, once: Tree,
      n: string)
    requires RunsTo(p, t, InstallSet(sets, scope), Owned(sets), choose, once) && n in t
    ensures n !in once <==>
      && t[n].skill.Some? && Unedited(p, t[n].skill.value)
      && !Claimed(sets.library, n) && !Claimed(sets.system, n) && !Claimed(sets.workspace, n)
      && !Claimed(sets.project, n)
  {
    hide Materialise, SplitStamp, RunsTo, InstallSet, Owned, Claimed;
    var subs, owned := InstallSet(sets, scope), Owned(sets);
    OwnedIsClaimed(sets, n);
    InstalledIsOwned(sets, scope, n);
    LeftByRun(p, t, subs, owned, choose, once, n);
  }

  lemma InstalledIsOwned(sets: Scopes, scope: Scope, n: string)
    ensures n in InstallSet(sets, scope) ==> n in Owned(sets)
  {
    hide SubByName, LocalSkillName, Flatten;
    OwnedIsClaimed(sets, n);
    NamesOfRows(sets.system);
    NamesOfRows(sets.workspace);
    NamesOfRows(sets.project);
  }

  /** The run retires the name: no row, no scope that claims it, and an unedited stamped file. */
  predicate Retires(p: Platform, t: Tree, subs: Rows, protected: set<string>, n: string) {
    n !in subs && n !in protected && SkillText(t, n).Some? && Unedited(p, SkillText(t, n).value)
  }

  /** A run keeps the backups under a name exactly when it does not retire the name: removal deletes the
      whole directory, the .bak files with it. */
  lemma BackupsSurviveExactly(p: Platform, t: Tree, subs: Rows, protected: set<string>, choose: Choice, once: Tree,
      n: string)
    requires RunsTo(p, t, subs, protected, choose, once) && n in t
    ensures (n in once && t[n].backups <= once[n].backups) <==> !Retires(p, t, subs, protected, n)
  {
    hide Materialise, SplitStamp, RunsTo;
    LeftByRun(p, t, subs, protected, choose, once, n);
  }

  /** The rows and answers of one run. */
  datatype Sync = Sync(subs: Rows, protected: set<string>, choose: Choice)

  /** Between runs the operator edits, adds and deletes files as he likes, but no .bak and no directory
      that holds one. */
  predicate LeavesBackups(a: Tree, b: Tree, n: string) {
    n in a ==> n in b && b[n].backups == a[n].backups
  }

  predicate RunAt(p: Platform, before: seq<Tree>, runs: seq<Sync>, after: seq<Tree>, k: nat, n: string)
    requires |before| == |runs| == |after| && k < |runs|
  {
    && Becomes(p, before[k], runs[k].subs, runs[k].protected, runs[k].choose, after[k], n)
    && (k + 1 < |runs| ==> LeavesBackups(after[k], before[k + 1], n))
  }

  /** A history: run k takes before[k] to after[k], and the operator takes that to before[k + 1]. */
  ghost predicate History(p: Platform, before: seq<Tree>, runs: seq<Sync>, after: seq<Tree>) {
    && |before| == |runs| == |after|
    && forall k: nat, n {:trigger RunAt(p, before, runs, after, k, n)} ::
      k < |runs| ==> RunAt(p, before, runs, after, k, n)
  }

  predicate RetiresAt(p: Platform, before: seq<Tree>, runs: seq<Sync>, k: nat, n: string)
    requires |before| == |runs| && k < |runs|
  {
    Retires(p, before[k], runs[k].subs, runs[k].protected, n)
  }

  /** What was backed up under n before the first run is there after run k. */
  predicate KeptAt(before: seq<Tree>, after: seq<Tree>, k: nat, n: string)
    requires |before| == |after| && k < |after|
  {
    n in before[0] && n in after[k] && before[0][n].backups <= after[k][n].backups
  }

  lemma OneRun(p: Platform, before: seq<Tree>, runs: seq<Sync>, after: seq<Tree>, k: nat, n: string)
    requires History(p, before, runs, after) && k < |runs| && n in before[k]
    ensures (n in after[k] && before[k][n].backups <= after[k][n].backups) <==> !RetiresAt(p, before, runs, k, n)
    ensures k + 1 < |runs| ==> LeavesBackups(after[k], before[k + 1], n)
  {
    hide Materialise, SplitStamp, History;
    SameLength(p, before, runs, after);
    assert RunAt(p, before, runs, after, k, n) by { RunIsAt(p, before, runs, after, k, n); }
  }

  lemma RunIsAt(p: Platform, before: seq<Tree>, runs: seq<Sync>, after: seq<Tree>, k: nat, n: string)
    requires History(p, before, runs, after) && k < |runs|
    ensures RunAt(p, before, runs, after, k, n)
  {
  }

  lemma {:induction false} KeptUpTo(p: Platform, before: seq<Tree>, runs: seq<Sync>, after: seq<Tree>, k: nat,
      n: string)
    requires History(p, before, runs, after) && k < |runs| && n in before[0]
    requires forall i: nat :: i < k ==> KeptAt(before, after, i, n)
    ensures n in before[k] && before[0][n].backups <= before[k][n].backups
    ensures !RetiresAt(p, before, runs, k, n) ==> KeptAt(before, after, k, n)
    ensures RetiresAt(p, before, runs, k, n) ==> n !in after[k]
  {
    hide RetiresAt, Becomes, History;
    SameLength(p, before, runs, after);
    if k > 0 {
      KeptUpTo(p, before, runs, after, k - 1, n);
      assert KeptAt(before, after, k - 1, n);
      OneRun(p, before, runs, after, k - 1, n);
    }
    OneRun(p, before, runs, after, k, n);
    if RetiresAt(p, before, runs, k, n) {
      RetiredIsGone(p, before, runs, after, k, n);
    }
  }

  lemma SameLength(p: Platform, before: seq<Tree>, runs: seq<Sync>, after: seq<Tree>)
    requires History(p, before, runs, after)
    ensures |before| == |runs| == |after|
  {
  }

  lemma RetiredIsGone(p: Platform, before: seq<Tree>, runs: seq<Sync>, after: seq<Tree>, k: nat, n: string)
    requires History(p, before, runs, after) && k < |runs| && RetiresAt(p, before, runs, k, n)
    ensures n !in after[k]
  {
    hide Materialise, SplitStamp, History;
    SameLength(p, before, runs, after);
    assert RunAt(p, before, runs, after, k, n) by { RunIsAt(p, before, runs, after, k, n); }
  }

  /** Over any history of runs and edits, the backups under a name are kept by every run exactly when no
      run retires the name. */
  lemma BackupsSurviveHistoryExactly(p: Platform, before: seq<Tree>, runs: seq<Sync>, after: seq<Tree>, n: string)
    requires History(p, before, runs, after) && runs != [] && n in before[0]
    ensures (forall k: nat :: k < |runs| ==> KeptAt(before, after, k, n))
       <==> (forall k: nat :: k < |runs| ==> !RetiresAt(p, before, runs, k, n))
  {
    hide RetiresAt, History, KeptAt;
    SameLength(p, before, runs, after);
    if forall k: nat :: k < |runs| ==> !RetiresAt(p, before, runs, k, n) {
      forall k: nat | k < |runs| ensures KeptAt(before, after, k, n) {
        AllKept(p, before, runs, after, k, n);
      }
    } else if forall k: nat :: k < |runs| ==> KeptAt(before, after, k, n) {
      var k: nat :| k < |runs| && RetiresAt(p, before, runs, k, n);
      RetiredIsGone(p, before, runs, after, k, n);
      assert !KeptAt(before, after, k, n) by { GoneIsNotKept(before, after, k, n); }
    }
  }

  lemma GoneIsNotKept(before: seq<Tree>, after: seq<Tree>, k: nat, n: string)
    requires |before| == |after| && k < |after| && n in before[0] && n !in after[k]
    ensures !KeptAt(before, after, k, n)
  {
  }

  lemma {:induction false} AllKept(p: Platform, before: seq<Tree>, runs: seq<Sync>, after: seq<Tree>, k: nat, n: string)
    requires History(p, before, runs, after) && k < |runs| && n in before[0]
    requires forall i: nat :: i < |runs| ==> !RetiresAt(p, before, runs, i, n)
    ensures forall i: nat :: i <= k ==> KeptAt(before, after, i, n)
  {
    hide RetiresAt, History, KeptAt;
    SameLength(p, before, runs, after);
    if k > 0 {
      AllKept(p, before, runs, after, k - 1, n);
    }
    KeptUpTo(p, before, runs, after, k, n);
  }

  /** So a forced edit outlives the run that overwrote it, but not the retirement of its row: for every
      edited file, force it, drop the row, and the next run leaves neither the file nor the backup. */
  lemma ForcedEditGoesWithItsRow(p: Platform, t: Tree, subs: Rows, protected: set<string>, choose: Choice,
      once: Tree, later: Rows, laterProtected: set<string>, twice: Tree, n: string, text: string)
    requires RunsTo(p, t, subs, protected, choose, once) && RunsTo(p, once, later, laterProtected, choose, twice)
    requires choose(n) && n in subs && LawfulAt(p, StampOf(p, subs[n])) && subs[n].documentId != ""
      && !Glued(subs[n].body)
    requires SkillText(t, n) == Some(text) && !Unedited(p, text)
    requires SplitStamp(p, text).ok || p.hash(AuthoredText(p, text)) != p.hash(subs[n].body)
    requires n !in later && n !in laterProtected
    ensures n in once && text in once[n].backups
    ensures n !in twice
  {
    hide Materialise, SplitStamp, RunsTo, LawfulAt, Glued, FrontOf;
    ForceBacksUpThenOverwrites(p, t, subs, protected, choose, once, n, text);
    assert DirAt(once, n) == Some(Dir(Some(Materialise(p, subs[n])), t[n].backups + [text]));
    PrintThenParse(p, subs[n]);
    LeftByRun(p, once, later, laterProtected, choose, twice, n);
  }

  /** So it happens: a file the operator wrote, forced and then retired, is gone with its backup. */
  lemma ForcedEditIsLost()
    returns (p: Platform, t: Tree, subs: Rows, choose: Choice, once: Tree, twice: Tree, n: string)
    ensures RunsTo(p, t, subs, {}, choose, once) && RunsTo(p, once, map[], {}, choose, twice)
    ensures SkillText(t, n) == Some("mine") && n in once && once[n].backups == ["mine"] && n !in twice
  {
    hide RunsTo, Materialise;
    var row := Row("x", "d", 1, "yours", "");
    p := Platform(body => body, _ => "{}", _ => Some(Stamp("d", 1, "yours", "")));
    n, choose := LocalSkillName("x"), _ => true;
    t, subs := map[n := Dir(Some("mine"), [])], map[n := row];
    once := RunHasOutcome(p, t, subs, {}, choose);
    twice := RunHasOutcome(p, once, map[], {}, choose);
    assert SplitStamp(p, "mine") == Parsed(NO_STAMP, "mine", false, false, false);
    assert LawfulAt(p, StampOf(p, row)) && !Glued("yours");
    ForceBacksUpThenOverwrites(p, t, subs, {}, choose, once, n, "mine");
    ForcedEditGoesWithItsRow(p, t, subs, {}, choose, once, map[], {}, twice, n, "mine");
  }

  /** And a row whose body ends in its frontmatter stays away from `current`: install it, and the next run
      finds a conflict or adopts it again, whatever the hash. */
  lemma GluedRowNeverSettles(p: Platform, choose: Choice) returns (row: Row, once: Tree, n: string)
    ensures row.documentId != "" && Glued(row.body)
    ensures RunsTo(p, map[], map[n := row], {}, choose, once)
    ensures LawfulAt(p, StampOf(p, row)) ==>
      VerdictAt(p, once, map[n := row], {}, n) in {Some(Conflict), Some(MatchUnstamped)}
  {
    hide RunsTo, Materialise, LawfulAt;
    row := Row("x", "d", 1, "---\n---", "");
    n := LocalSkillName("x");
    GluedExample();
    once := RunHasOutcome(p, map[], map[n := row], {}, choose);
    if LawfulAt(p, StampOf(p, row)) {
      WrittenThenCurrent(p, map[], map[n := row], {}, choose, once, n);
    }
  }
}
