/** Consuming a publisher's tasks as project rows, reconciled by the forked-from tag
    (internal/cli/cmd_task_sync.go; the row writes are internal/verb/document.go). */
module TaskSync {
  import opened Text

  const FORKED_FROM := "forked-from:"

  datatype LibTask = LibTask(name: string, body: string, publisher: string)

  datatype Task = Task(name: string, body: string, tags: seq<string>)

  /** Project tasks by id. */
  type Rows = map<string, Task>

  function Source(lt: LibTask): string {
    lt.publisher + "/" + lt.name
  }

  /** forkedFromValue: the source a tag set carries, "" for a local task. */
  function ForkedFrom(tags: seq<string>): string {
    if tags == [] then ""
    else if HasPrefix(TrimSpace(tags[0]), FORKED_FROM) then TrimSpace(TrimSpace(tags[0])[|FORKED_FROM|..])
    else ForkedFrom(tags[1..])
  }

  function ForkOf(t: Task): string {
    ForkedFrom(t.tags)
  }

  function TagsFor(lt: LibTask): seq<string> {
    [FORKED_FROM + Source(lt)]
  }

  /** upsertConsumedTask with an id: the body is patched only when there is one. */
  function Updated(t: Task, lt: LibTask): Task {
    Task(if lt.name == "" then t.name else lt.name, if lt.body == "" then t.body else lt.body, TagsFor(lt))
  }

  /** upsertConsumedTask without one: a new row. */
  function Minted(lt: LibTask): Task {
    Task(lt.name, lt.body, TagsFor(lt))
  }

  // ----- Tags read back ------------------------------------------------------------------------

  /** What forkedFromValue makes of the tag written for a source. */
  function ReadBack(lt: LibTask): string {
    TrimSpace(TrimRightSpace(Source(lt)))
  }

  /** It is the source itself exactly when the source has no outer white space, and never empty: a
      consumed task is never taken for a local one. */
  lemma TagReadsBack(lt: LibTask)
    ensures ForkedFrom(TagsFor(lt)) == ReadBack(lt)
    ensures ReadBack(lt) == Source(lt) <==> Trimmed(Source(lt))
    ensures ReadBack(lt) != ""
  {
    hide TrimSpace, TrimRightSpace, ForkedFrom;
    var src := Source(lt);
    var r := TrimRightSpace(src);
    TagTrims(src);
    OneTag(FORKED_FROM + src, r);
    TrimIsTrimmed(r);
    RightTrimmed(src);
    SlashSurvives(src, |lt.publisher|);
  }

  lemma OneTag(tag: string, r: string)
    requires TrimSpace(tag) == FORKED_FROM + r
    ensures ForkedFrom([tag]) == TrimSpace(r)
  {
    hide TrimSpace;
    assert (FORKED_FROM + r)[|FORKED_FROM|..] == r;
  }

  lemma TagTrims(src: string)
    ensures TrimSpace(FORKED_FROM + src) == FORKED_FROM + TrimRightSpace(src)
  {
    hide TrimRightSpace, TrimSpace;
    PrefixedTrims(FORKED_FROM, src);
  }

  lemma PrefixedTrims(p: string, src: string)
    requires p != "" && !IsSpace(p[0]) && !IsSpace(p[|p| - 1])
    ensures TrimSpace(p + src) == p + TrimRightSpace(src)
  {
    hide TrimRightSpace;
    TrimRightOfTag(p, src);
    assert (p + src)[0] == p[0];
  }

  lemma RightTrimmed(s: string)
    ensures Trimmed(s) ==> TrimRightSpace(s) == s
    ensures Trimmed(TrimRightSpace(s)) && TrimRightSpace(s) == s ==> Trimmed(s)
    ensures TrimSpace(TrimRightSpace(s)) == s ==> Trimmed(s)
  {
    hide TrimSpace;
    TrimmedRight(s);
    TrimIsTrimmed(TrimRightSpace(s));
  }

  lemma {:induction false} TrimRightOfTag(p: string, s: string)
    requires p != "" && !IsSpace(p[|p| - 1])
    ensures TrimRightSpace(p + s) == p + TrimRightSpace(s)
    decreases |s|
  {
    var t := p + s;
    if s != "" && IsSpace(s[|s| - 1]) {
      assert t[..|t| - 1] == p + s[..|s| - 1];
      TrimRightOfTag(p, s[..|s| - 1]);
    } else {
      assert s == "" ==> t == p;
    }
  }

  lemma {:induction false} RightKeepsSlash(s: string)
    requires '/' in s
    ensures '/' in TrimRightSpace(s)
    decreases |s|
  {
    if IsSpace(s[|s| - 1]) {
      assert s == s[..|s| - 1] + [s[|s| - 1]];
      RightKeepsSlash(s[..|s| - 1]);
    }
  }

  lemma {:induction false} LeftKeepsSlash(s: string)
    requires '/' in s
    ensures '/' in TrimLeftSpace(s)
    decreases |s|
  {
    if IsSpace(s[0]) {
      assert s == [s[0]] + s[1..];
      LeftKeepsSlash(s[1..]);
    }
  }

  lemma SlashSurvives(s: string, i: nat)
    requires i < |s| && s[i] == '/'
    ensures TrimSpace(TrimRightSpace(s)) != ""
  {
    RightKeepsSlash(s);
    LeftKeepsSlash(TrimRightSpace(s));
    RightKeepsSlash(TrimLeftSpace(TrimRightSpace(s)));
  }

  // ----- One run -------------------------------------------------------------------------------

  /** At most one row a source. */
  ghost predicate UniqueForks(rows: Rows) {
    forall i, j :: i in rows && j in rows && ForkOf(rows[i]) == ForkOf(rows[j]) != "" ==> i == j
  }

  ghost predicate ForkedAs(rows: Rows, src: string, id: string) {
    id in rows && ForkOf(rows[id]) == src
  }

  ghost predicate HasFork(rows: Rows, src: string) {
    exists id :: ForkedAs(rows, src, id)
  }

  /** Some local task of the project has this name. */
  ghost predicate HasLocal(rows: Rows, name: string) {
    exists id :: id in rows && ForkOf(rows[id]) == "" && rows[id].name == name
  }

  /** Entry k of the library has no row to update and no local task to yield to. */
  ghost predicate Creates(rows: Rows, lib: seq<LibTask>, k: nat)
    requires k < |lib|
  {
    !HasFork(rows, Source(lib[k])) && !HasLocal(rows, lib[k].name)
  }

  /** The index of the forked rows: source -> id. */
  type Index = map<string, string>

  /** It has every source that some row carries, and for each the row listed last, whichever that is. */
  ghost predicate Picks(rows: Rows, pick: Index) {
    && (forall src :: src in pick <==> src != "" && HasFork(rows, src))
    && (forall src :: src in pick ==> ForkedAs(rows, src, pick[src]))
  }

  /** What the indexing loop makes of the rows in the order they are listed: later rows replace earlier
      ones of their source. */
  function IndexOf(rows: Rows, listed: seq<string>): Index {
    if listed == [] then map[]
    else
      var (init, id) := (IndexOf(rows, listed[..|listed| - 1]), listed[|listed| - 1]);
      if id in rows && ForkOf(rows[id]) != "" then init[ForkOf(rows[id]) := id] else init
  }

  lemma {:induction false} IndexedSources(rows: Rows, listed: seq<string>)
    ensures forall src :: src in IndexOf(rows, listed) ==> src != "" && ForkedAs(rows, src, IndexOf(rows, listed)[src])
    ensures forall id ::
      id in listed && id in rows && ForkOf(rows[id]) != "" ==> ForkOf(rows[id]) in IndexOf(rows, listed)
    decreases |listed|
  {
    hide ForkOf;
    if listed != [] {
      var init := listed[..|listed| - 1];
      IndexedSources(rows, init);
      assert forall id :: id in listed ==> id in init || id == listed[|listed| - 1];
    }
  }

  /** A complete listing gives an index of the rows. */
  lemma IndexPicks(rows: Rows, listed: seq<string>)
    requires forall id :: id in rows ==> id in listed
    ensures Picks(rows, IndexOf(rows, listed))
  {
    hide ForkOf, IndexOf;
    IndexedSources(rows, listed);
    forall src | src != "" && HasFork(rows, src) ensures src in IndexOf(rows, listed) {
      var id :| ForkedAs(rows, src, id);
      assert id in listed;
    }
  }

  lemma IndexStep(rows: Rows, listed: seq<string>, i: nat)
    requires i < |listed|
    ensures IndexOf(rows, listed[..i + 1])
      == if listed[i] in rows && ForkOf(rows[listed[i]]) != ""
        then IndexOf(rows, listed[..i])[ForkOf(rows[listed[i]]) := listed[i]] else IndexOf(rows, listed[..i])
  {
    hide ForkOf;
    assert listed[..i + 1][..i] == listed[..i];
  }

  lemma NoIndex(rows: Rows, listed: seq<string>)
    ensures IndexOf(rows, listed[..0]) == map[]
  {
  }

  lemma PickedSources(rows: Rows, pick: Index, src: string)
    requires Picks(rows, pick) && src != ""
    ensures src in pick <==> HasFork(rows, src)
    ensures src in pick ==> ForkedAs(rows, src, pick[src])
  {
  }

  /** The names collected are those of the local tasks. */
  lemma IndexedLocals(rows: Rows, listed: seq<string>, localNames: set<string>)
    requires forall id :: id in rows <==> id in listed
    requires forall n :: n in localNames <==>
      exists j :: 0 <= j < |listed| && ForkOf(rows[listed[j]]) == "" && rows[listed[j]].name == n
    ensures forall n :: n in localNames <==> HasLocal(rows, n)
  {
    hide ForkOf;
    forall n | HasLocal(rows, n) ensures n in localNames {
      var id :| id in rows && ForkOf(rows[id]) == "" && rows[id].name == n;
      var j :| 0 <= j < |listed| && listed[j] == id;
    }
  }

  /** The run's input: the project's rows with their index, the library, and the ids the server mints,
      new and distinct. */
  ghost predicate RunInput(rows: Rows, pick: Index, lib: seq<LibTask>, ids: seq<string>) {
    && Picks(rows, pick) && |ids| == |lib|
    && (forall k :: 0 <= k < |ids| ==> ids[k] !in rows)
    && (forall i, j :: 0 <= i < j < |ids| ==> ids[i] != ids[j])
  }

  /** What the run leaves under an id after the first k library entries, given the listing `rows`. */
  ghost predicate RunTo(rows: Rows, pick: Index, lib: seq<LibTask>, ids: seq<string>, k: nat, cur: Rows)
    requires k <= |lib| == |ids|
  {
    && (forall id :: id in cur <==> id in rows || exists i :: 0 <= i < k && ids[i] == id && Creates(rows, lib, i))
    && (forall id :: id in rows && id in cur ==> RowAfter(rows, pick, lib, k, id, cur[id]))
    && (forall i :: 0 <= i < k && Creates(rows, lib, i) && ids[i] in cur ==> cur[ids[i]] == Minted(lib[i]))
  }

  /** A row with every entry of its source applied, in order. */
  function Patched(t: Task, lib: seq<LibTask>): Task {
    if lib == [] then t
    else
      var (init, lt) := (Patched(t, lib[..|lib| - 1]), lib[|lib| - 1]);
      if ForkOf(t) == Source(lt) then Updated(init, lt) else init
  }

  /** The row the index has for its source. */
  predicate Picked(rows: Rows, pick: Index, id: string)
    requires id in rows
  {
    ForkOf(rows[id]) in pick && pick[ForkOf(rows[id])] == id
  }

  predicate RowAfter(rows: Rows, pick: Index, lib: seq<LibTask>, k: nat, id: string, now: Task)
    requires id in rows && k <= |lib|
  {
    now == if Picked(rows, pick, id) then Patched(rows[id], lib[..k]) else rows[id]
  }

  class Project {
    var rows: Rows

    /** reconcileTasks: index the rows in the order they are listed, then update, skip or create.  The run
        stops at the first upsert the server refuses; `done` entries are then dealt with. */
    method ReconcileTasks(listed: seq<string>, lib: seq<LibTask>, ids: seq<string>, up: nat -> bool) returns (done: nat)
      requires forall id :: id in rows <==> id in listed
      requires RunInput(rows, IndexOf(rows, listed), lib, ids)
      modifies this
      ensures done <= |lib| && RunTo(old(rows), IndexOf(old(rows), listed), lib, ids, done, rows)
      ensures done < |lib| ==> !up(done)
      ensures forall k: nat :: k < done && !up(k) ==>
        !HasFork(old(rows), Source(lib[k])) && HasLocal(old(rows), lib[k].name)
    {
      hide ForkOf, Patched, Minted, Updated, RunTo, IndexOf, Picks;
      var forkedBySrc: map<string, string>, localNames: set<string> := map[], {};
      NoIndex(rows, listed);
      for i := 0 to |listed|
        invariant rows == old(rows) && forkedBySrc == IndexOf(rows, listed[..i])
        invariant forall n :: n in localNames <==>
          exists j :: 0 <= j < i && ForkOf(rows[listed[j]]) == "" && rows[listed[j]].name == n
      {
        IndexStep(rows, listed, i);
        var id := listed[i];
        var src := ForkOf(rows[id]);
        if src != "" {
          forkedBySrc := forkedBySrc[src := id];
        } else {
          localNames := localNames + {rows[id].name};
        }
      }
      assert listed[..|listed|] == listed;
      ghost var pick := IndexOf(rows, listed);
      IndexPicks(rows, listed);
      IndexedLocals(rows, listed, localNames);
      StartRun(rows, pick, lib, ids);
      for k := 0 to |lib|
        invariant RunTo(old(rows), pick, lib, ids, k, rows)
        invariant forall i: nat :: i < k && !up(i) ==>
          !HasFork(old(rows), Source(lib[i])) && HasLocal(old(rows), lib[i].name)
      {
        var lt := lib[k];
        var src := Source(lt);
        SourceIsNotEmpty(lt);
        assert src in pick <==> HasFork(old(rows), src) by {
          PickedSources(old(rows), pick, src);
        }
        if src in forkedBySrc {
          if !up(k) {
            return k;
          }
          var prior := forkedBySrc[src];
          PickedSources(old(rows), pick, src);
          OldRowsStay(old(rows), pick, lib, ids, k, rows, prior);
          UpdateStep(old(rows), pick, lib, ids, k, rows, prior);
          rows := rows[prior := Updated(rows[prior], lt)];
        } else if lt.name in localNames {
          SkipStep(old(rows), pick, lib, ids, k, rows);
        } else {
          if !up(k) {
            return k;
          }
          CreateStep(old(rows), pick, lib, ids, k, rows);
          rows := rows[ids[k] := Minted(lt)];
        }
      }
      return |lib|;
    }
  }

  lemma SourceIsNotEmpty(lt: LibTask)
    ensures Source(lt) != ""
  {
  }

  lemma StartRun(rows: Rows, pick: Index, lib: seq<LibTask>, ids: seq<string>)
    requires RunInput(rows, pick, lib, ids)
    ensures RunTo(rows, pick, lib, ids, 0, rows)
  {
    assert lib[..0] == [];
  }

  lemma OldRowsStay(rows: Rows, pick: Index, lib: seq<LibTask>, ids: seq<string>, k: nat, cur: Rows, id: string)
    requires k <= |lib| == |ids| && RunTo(rows, pick, lib, ids, k, cur) && id in rows
    ensures id in cur
  {
  }

  lemma PatchedStep(t: Task, lib: seq<LibTask>, k: nat)
    requires k < |lib|
    ensures Patched(t, lib[..k + 1]) == if ForkOf(t) == Source(lib[k]) then Updated(Patched(t, lib[..k]), lib[k])
      else Patched(t, lib[..k])
  {
    assert lib[..k + 1][..k] == lib[..k];
  }

  lemma UpdateStep(rows: Rows, pick: Index, lib: seq<LibTask>, ids: seq<string>, k: nat, cur: Rows, prior: string)
    requires RunInput(rows, pick, lib, ids) && k < |lib| && RunTo(rows, pick, lib, ids, k, cur)
    requires Source(lib[k]) in pick && pick[Source(lib[k])] == prior && prior in cur
    ensures RunTo(rows, pick, lib, ids, k + 1, cur[prior := Updated(cur[prior], lib[k])])
  {
    hide ForkOf, Patched, Minted, Updated, Source;
    SourceIsNotEmpty(lib[k]);
    var next := cur[prior := Updated(cur[prior], lib[k])];
    assert !Creates(rows, lib, k);
    forall id | id in rows && id in next ensures RowAfter(rows, pick, lib, k + 1, id, next[id]) {
      PatchedStep(rows[id], lib, k);
      assert RowAfter(rows, pick, lib, k, id, cur[id]);
    }
  }

  lemma SkipStep(rows: Rows, pick: Index, lib: seq<LibTask>, ids: seq<string>, k: nat, cur: Rows)
    requires RunInput(rows, pick, lib, ids) && k < |lib| && RunTo(rows, pick, lib, ids, k, cur)
    requires !HasFork(rows, Source(lib[k])) && HasLocal(rows, lib[k].name)
    ensures RunTo(rows, pick, lib, ids, k + 1, cur)
  {
    hide ForkOf, Patched, Minted, Source;
    forall id | id in rows && id in cur ensures RowAfter(rows, pick, lib, k + 1, id, cur[id]) {
      PatchedStep(rows[id], lib, k);
      assert RowAfter(rows, pick, lib, k, id, cur[id]);
      assert !ForkedAs(rows, Source(lib[k]), id);
    }
  }

  lemma CreateStep(rows: Rows, pick: Index, lib: seq<LibTask>, ids: seq<string>, k: nat, cur: Rows)
    requires RunInput(rows, pick, lib, ids) && k < |lib| && RunTo(rows, pick, lib, ids, k, cur) && Creates(rows, lib, k)
    ensures RunTo(rows, pick, lib, ids, k + 1, cur[ids[k] := Minted(lib[k])])
  {
    hide ForkOf, Patched, Minted, Source, Picked, Picks;
    var next := cur[ids[k] := Minted(lib[k])];
    forall id | id in rows && id in next ensures RowAfter(rows, pick, lib, k + 1, id, next[id]) {
      PatchedStep(rows[id], lib, k);
      assert RowAfter(rows, pick, lib, k, id, cur[id]);
      assert !ForkedAs(rows, Source(lib[k]), id);
    }
    forall i | 0 <= i < k + 1 && Creates(rows, lib, i) && ids[i] in next ensures next[ids[i]] == Minted(lib[i]) {
    }
  }

  /** A run that stops early is a run over the entries it dealt with, so what holds of runs holds of it. */
  lemma StoppedRunIsRun(rows: Rows, pick: Index, lib: seq<LibTask>, ids: seq<string>, k: nat, cur: Rows)
    requires RunInput(rows, pick, lib, ids) && k <= |lib| && RunTo(rows, pick, lib, ids, k, cur)
    ensures RunInput(rows, pick, lib[..k], ids[..k]) && RunTo(rows, pick, lib[..k], ids[..k], k, cur)
  {
    hide ForkOf, Patched, Minted, Picked, Source;
    var l, d := lib[..k], ids[..k];
    assert l[..k] == lib[..k];
    forall i: nat | i < k ensures l[i] == lib[i] && d[i] == ids[i] && (Creates(rows, l, i) <==> Creates(rows, lib, i)) {
    }
    forall id | id in rows && id in cur ensures RowAfter(rows, pick, l, k, id, cur[id]) {
      assert RowAfter(rows, pick, lib, k, id, cur[id]);
    }
  }

  // ----- What a run keeps ----------------------------------------------------------------------

  lemma {:induction false} PatchedKeepsFork(t: Task, lib: seq<LibTask>)
    requires Trimmed(ForkOf(t))
    ensures ForkOf(Patched(t, lib)) == ForkOf(t)
    ensures ForkOf(t) == "" ==> Patched(t, lib) == t
    decreases |lib|
  {
    hide ForkedFrom;
    if lib != [] {
      var init, lt := lib[..|lib| - 1], lib[|lib| - 1];
      PatchedKeepsFork(t, init);
      SourceIsNotEmpty(lt);
      TagReadsBack(lt);
    }
  }

  lemma {:induction false} ForksAreTrimmed(tags: seq<string>)
    ensures Trimmed(ForkedFrom(tags))
    decreases |tags|
  {
    hide TrimSpace;
    if tags != [] {
      if HasPrefix(TrimSpace(tags[0]), FORKED_FROM) {
        TrimIsTrimmed(TrimSpace(tags[0])[|FORKED_FROM|..]);
      } else {
        ForksAreTrimmed(tags[1..]);
      }
    }
  }

  /** A run deletes no row and changes no local task, and every row it updates keeps its id and its
      source. */
  lemma RunKeepsRows(rows: Rows, pick: Index, lib: seq<LibTask>, ids: seq<string>, after: Rows, id: string)
    requires RunInput(rows, pick, lib, ids) && RunTo(rows, pick, lib, ids, |lib|, after) && id in rows
    ensures id in after && ForkOf(after[id]) == ForkOf(rows[id])
    ensures ForkOf(rows[id]) == "" ==> after[id] == rows[id]
  {
    hide Patched, Minted, Creates;
    ForksAreTrimmed(rows[id].tags);
    PatchedKeepsFork(rows[id], lib);
    assert lib[..|lib|] == lib;
    assert id in after && RowAfter(rows, pick, lib, |lib|, id, after[id]);
  }

  /** A row is patched by the one entry of its source and no other. */
  lemma {:induction false} PatchedByOne(t: Task, lib: seq<LibTask>, k: int)
    requires -1 <= k < |lib| && (k >= 0 ==> Source(lib[k]) == ForkOf(t))
    requires forall m :: 0 <= m < |lib| && m != k ==> Source(lib[m]) != ForkOf(t)
    ensures Patched(t, lib) == if k < 0 then t else Updated(t, lib[k])
    decreases |lib|
  {
    hide ForkOf, Source, Updated;
    if lib != [] {
      var n := |lib| - 1;
      PatchedByOne(t, lib[..n], if k == n then -1 else k);
    }
  }

  /** What a run makes of an entry whose source no other entry has: the row indexed for its source gets its
      name and body, unless they are empty, and its tag; with no such row and no local task of its name, there
      is a new row with just these; and with a local task of its name, no row of its source appears. */
  lemma RunWritesEntry(rows: Rows, pick: Index, lib: seq<LibTask>, ids: seq<string>, after: Rows, k: nat)
    requires RunInput(rows, pick, lib, ids) && RunTo(rows, pick, lib, ids, |lib|, after) && k < |lib|
    requires forall m :: 0 <= m < |lib| && m != k ==> Source(lib[m]) != Source(lib[k])
    ensures var (lt, src) := (lib[k], lib[k].publisher + "/" + lib[k].name);
      var tags := ["forked-from:" + src];
      if HasFork(rows, src) then
        && src in pick && pick[src] in rows && pick[src] in after
        && var t := rows[pick[src]];
        after[pick[src]] == Task(if lt.name == "" then t.name else lt.name, if lt.body == "" then t.body else lt.body,
          tags)
      else if HasLocal(rows, lt.name) then ids[k] !in after
      else ids[k] in after && after[ids[k]] == Task(lt.name, lt.body, tags)
  {
    hide ForkOf, Patched, RunTo, Picks;
    var src := Source(lib[k]);
    SourceIsNotEmpty(lib[k]);
    assert RunTo(rows, pick, lib, ids, |lib|, after);
    if HasFork(rows, src) {
      PickedSources(rows, pick, src);
      RowIsPatched(rows, pick, lib, ids, after, pick[src]);
      PatchedByOne(rows[pick[src]], lib, k);
    } else {
      NewRow(rows, pick, lib, ids, after, k);
    }
  }

  lemma RowIsPatched(rows: Rows, pick: Index, lib: seq<LibTask>, ids: seq<string>, after: Rows, id: string)
    requires RunInput(rows, pick, lib, ids) && RunTo(rows, pick, lib, ids, |lib|, after) && id in rows
    ensures id in after && after[id] == if Picked(rows, pick, id) then Patched(rows[id], lib) else rows[id]
  {
    hide ForkOf, Patched, Minted, Creates;
    assert lib[..|lib|] == lib;
    assert id in after && RowAfter(rows, pick, lib, |lib|, id, after[id]);
  }

  lemma NewRow(rows: Rows, pick: Index, lib: seq<LibTask>, ids: seq<string>, after: Rows, k: nat)
    requires RunInput(rows, pick, lib, ids) && RunTo(rows, pick, lib, ids, |lib|, after) && k < |lib|
    ensures ids[k] in after <==> Creates(rows, lib, k)
    ensures ids[k] in after ==> after[ids[k]] == Minted(lib[k])
  {
    hide ForkOf, Patched, Minted, Creates;
  }

  /** The first tag of the form `forked-from:<source>`, white space around tag and source aside, is the one
      that is read. */
  lemma {:induction false} FirstForkTagCounts(before: seq<string>, tag: string, after: seq<string>)
    requires forall t :: t in before ==> !("forked-from:" <= TrimSpace(t))
    ensures "forked-from:" <= TrimSpace(tag) ==>
      ForkedFrom(before + [tag] + after) == TrimSpace(TrimSpace(tag)[|"forked-from:"|..])
    ensures ForkedFrom(before) == ""
    decreases |before|
  {
    hide TrimSpace;
    if before == [] {
      assert before + [tag] + after == [tag] + after;
    } else {
      assert before[0] in before && forall t :: t in before[1..] ==> t in before;
      assert before + [tag] + after == [before[0]] + (before[1..] + [tag] + after);
      FirstForkTagCounts(before[1..], tag, after);
    }
  }

  /** Two created entries read back as one source, or one reads back as a source already there. */
  ghost predicate Clashes(rows: Rows, lib: seq<LibTask>, i: nat, j: nat)
    requires i < |lib| && j < |lib|
  {
    Creates(rows, lib, i)
      && ((i != j && Creates(rows, lib, j) && ReadBack(lib[i]) == ReadBack(lib[j])) || HasFork(rows, ReadBack(lib[i])))
  }

  lemma CreatedRow(rows: Rows, pick: Index, lib: seq<LibTask>, ids: seq<string>, after: Rows, k: nat)
    requires RunInput(rows, pick, lib, ids) && RunTo(rows, pick, lib, ids, |lib|, after) && k < |lib|
      && Creates(rows, lib, k)
    ensures ids[k] in after && after[ids[k]] == Minted(lib[k]) && ForkOf(after[ids[k]]) == ReadBack(lib[k]) != ""
  {
    hide ForkedFrom, ReadBack, Creates, RowAfter;
    TagReadsBack(lib[k]);
    assert ids[k] in after;
  }

  ghost predicate NoClashes(rows: Rows, lib: seq<LibTask>) {
    forall i: nat, j: nat :: i < |lib| && j < |lib| ==> !Clashes(rows, lib, i, j)
  }

  /** One run leaves at most one row a source, exactly when that held before and no created entry reads
      back as the source of another created entry or of an old row. */
  lemma RunKeepsForksUniqueExactly(rows: Rows, pick: Index, lib: seq<LibTask>, ids: seq<string>, after: Rows)
    requires RunInput(rows, pick, lib, ids) && RunTo(rows, pick, lib, ids, |lib|, after)
    ensures UniqueForks(after) <==> UniqueForks(rows) && NoClashes(rows, lib)
  {
    hide ForkOf, ReadBack, Creates, RowAfter, Minted;
    forall id | id in rows ensures id in after && ForkOf(after[id]) == ForkOf(rows[id]) {
      RunKeepsRows(rows, pick, lib, ids, after, id);
    }
    if UniqueForks(rows) && NoClashes(rows, lib) {
      forall a, b | a in after && b in after && ForkOf(after[a]) == ForkOf(after[b]) != "" ensures a == b {
        if a !in rows {
          var k :| 0 <= k < |lib| && ids[k] == a && Creates(rows, lib, k);
          NoClashOnce(rows, pick, lib, ids, after, k, b);
        } else if b !in rows {
          var k :| 0 <= k < |lib| && ids[k] == b && Creates(rows, lib, k);
          NoClashOnce(rows, pick, lib, ids, after, k, a);
        }
      }
    } else if UniqueForks(rows) {
      var i: nat, j: nat :| i < |lib| && j < |lib| && Clashes(rows, lib, i, j);
      ClashDoubles(rows, pick, lib, ids, after, i, j);
    } else {
      var a, b :| a in rows && b in rows && ForkOf(rows[a]) == ForkOf(rows[b]) != "" && a != b;
      assert ForkOf(after[a]) == ForkOf(after[b]);
    }
  }

  lemma NoClashOnce(rows: Rows, pick: Index, lib: seq<LibTask>, ids: seq<string>, after: Rows, k: nat, b: string)
    requires RunInput(rows, pick, lib, ids) && RunTo(rows, pick, lib, ids, |lib|, after)
    requires NoClashes(rows, lib)
    requires k < |lib| && Creates(rows, lib, k) && b in after
    requires ids[k] in after && ForkOf(after[ids[k]]) == ForkOf(after[b])
    ensures b == ids[k]
  {
    hide ForkOf, ReadBack, Creates, RowAfter, Minted;
    CreatedRow(rows, pick, lib, ids, after, k);
    assert !Clashes(rows, lib, k, k);
    assert !ForkedAs(rows, ReadBack(lib[k]), b);
    if b in rows {
      RunKeepsRows(rows, pick, lib, ids, after, b);
    } else {
      var m :| 0 <= m < |lib| && ids[m] == b && Creates(rows, lib, m);
      CreatedRow(rows, pick, lib, ids, after, m);
      assert !Clashes(rows, lib, k, m);
    }
  }

  lemma ClashDoubles(rows: Rows, pick: Index, lib: seq<LibTask>, ids: seq<string>, after: Rows, i: nat, j: nat)
    requires RunInput(rows, pick, lib, ids) && RunTo(rows, pick, lib, ids, |lib|, after)
    requires i < |lib| && j < |lib| && Clashes(rows, lib, i, j)
    ensures !UniqueForks(after)
  {
    hide ForkOf, ReadBack, Creates, RowAfter, Minted, RunTo;
    CreatedRow(rows, pick, lib, ids, after, i);
    if HasFork(rows, ReadBack(lib[i])) {
      var id :| ForkedAs(rows, ReadBack(lib[i]), id);
      RunKeepsRows(rows, pick, lib, ids, after, id);
      assert id in after && ids[i] in after && id != ids[i];
    } else {
      CreatedRow(rows, pick, lib, ids, after, j);
      assert ids[i] != ids[j];
    }
  }

  /** With distinct sources free of outer white space there is no clash. */
  lemma DistinctSourcesNeverClash(rows: Rows, lib: seq<LibTask>, i: nat, j: nat)
    requires i < |lib| && j < |lib|
    requires DistinctSources(lib)
    ensures !Clashes(rows, lib, i, j)
  {
    hide ReadBack, Source, Trimmed;
    TagReadsBack(lib[i]);
    TagReadsBack(lib[j]);
  }

  // ----- The second run ------------------------------------------------------------------------

  /** A second run over the same library creates nothing, exactly when every source the first run
      created a row for is free of outer white space. */
  lemma SecondRunCreatesNothingExactly(rows: Rows, pick: Index, lib: seq<LibTask>, ids: seq<string>, after: Rows)
    requires RunInput(rows, pick, lib, ids) && RunTo(rows, pick, lib, ids, |lib|, after)
    ensures (forall k: nat :: k < |lib| ==> !Creates(after, lib, k))
       <==> (forall k: nat :: k < |lib| && Creates(rows, lib, k) ==> Trimmed(Source(lib[k])))
  {
    hide RunTo, RunInput, Creates, Trimmed, Source;
    forall k: nat | k < |lib| ensures Creates(after, lib, k) <==> Creates(rows, lib, k) && !Trimmed(Source(lib[k])) {
      CreatesAgain(rows, pick, lib, ids, after, k);
    }
  }

  lemma CreatesAgain(rows: Rows, pick: Index, lib: seq<LibTask>, ids: seq<string>, after: Rows, k: nat)
    requires RunInput(rows, pick, lib, ids) && RunTo(rows, pick, lib, ids, |lib|, after) && k < |lib|
    ensures Creates(after, lib, k) <==> Creates(rows, lib, k) && !Trimmed(Source(lib[k]))
  {
    hide ForkOf, ReadBack, Minted, Source, RunTo, Trimmed;
    LocalsAreTheSame(rows, pick, lib, ids, after, lib[k].name);
    HasForkIsTrimmed(after, Source(lib[k]));
    if HasFork(rows, Source(lib[k])) {
      var id :| ForkedAs(rows, Source(lib[k]), id);
      RunKeepsRows(rows, pick, lib, ids, after, id);
      assert ForkedAs(after, Source(lib[k]), id);
    } else if Creates(rows, lib, k) && Trimmed(Source(lib[k])) {
      CreatedRow(rows, pick, lib, ids, after, k);
      TagReadsBack(lib[k]);
      assert ForkedAs(after, Source(lib[k]), ids[k]);
    }
  }

  lemma HasForkIsTrimmed(rows: Rows, src: string)
    ensures HasFork(rows, src) ==> Trimmed(src)
  {
    if HasFork(rows, src) {
      var id :| ForkedAs(rows, src, id);
      ForksAreTrimmed(rows[id].tags);
    }
  }

  ghost predicate DistinctSources(lib: seq<LibTask>) {
    && (forall k :: 0 <= k < |lib| ==> Trimmed(Source(lib[k])))
    && (forall k, m :: 0 <= k < m < |lib| ==> Source(lib[k]) != Source(lib[m]))
  }

  /** Each publisher's names are unique. */
  ghost predicate DistinctTasks(lib: seq<LibTask>) {
    forall k, m :: 0 <= k < m < |lib| ==> lib[k].publisher != lib[m].publisher || lib[k].name != lib[m].name
  }

  /** Two tasks have one source exactly when they are one task, for publishers without a slash... */
  lemma SourcesDifferExactly(a: LibTask, b: LibTask)
    requires '/' !in a.publisher && '/' !in b.publisher
    ensures Source(a) == Source(b) <==> a.publisher == b.publisher && a.name == b.name
  {
    if Source(a) == Source(b) {
      IndexByteIs(Source(a), '/', |a.publisher|);
      IndexByteIs(Source(b), '/', |b.publisher|);
      assert a.publisher == Source(a)[..|a.publisher|] && b.publisher == Source(b)[..|b.publisher|];
      assert a.name == Source(a)[|a.publisher| + 1..] && b.name == Source(b)[|b.publisher| + 1..];
    }
  }

  /** ... and not for others: the slash may stand in the publisher or in the name. */
  lemma SlashedSourcesMeet(p: string, q: string, name: string, body: string)
    ensures Source(LibTask(q + "/" + name, body, p)) == Source(LibTask(name, body, p + "/" + q))
  {
    assert p + "/" + (q + "/" + name) == p + "/" + q + "/" + name;
  }

  /** So unique names under publishers without a slash, all free of outer white space, have distinct
      sources free of it. */
  lemma TasksHaveDistinctSources(lib: seq<LibTask>)
    requires DistinctTasks(lib)
    requires forall k ::
      0 <= k < |lib| ==> '/' !in lib[k].publisher && Trimmed(lib[k].publisher) && Trimmed(lib[k].name)
    ensures DistinctSources(lib)
  {
    hide Source, Trimmed;
    forall k | 0 <= k < |lib| ensures Trimmed(Source(lib[k])) {
      TrimmedParts(lib[k]);
    }
    forall k, m | 0 <= k < m < |lib| ensures Source(lib[k]) != Source(lib[m]) {
      SourcesDifferExactly(lib[k], lib[m]);
    }
  }

  lemma TrimmedParts(lt: LibTask)
    requires Trimmed(lt.publisher) && Trimmed(lt.name)
    ensures Trimmed(Source(lt))
  {
    var src := Source(lt);
    assert src[0] == if lt.publisher == "" then '/' else lt.publisher[0];
    assert src[|src| - 1] == if lt.name == "" then '/' else lt.name[|lt.name| - 1];
  }

  lemma PatchedTwice(t: Task, lib: seq<LibTask>)
    requires DistinctSources(lib) && Trimmed(ForkOf(t))
    ensures Patched(Patched(t, lib), lib) == Patched(t, lib)
  {
    hide ForkOf, Source, Trimmed;
    PatchedKeepsFork(t, lib);
    if exists k :: 0 <= k < |lib| && Source(lib[k]) == ForkOf(t) {
      var k :| 0 <= k < |lib| && Source(lib[k]) == ForkOf(t);
      PatchedByOne(t, lib, k);
      PatchedByOne(Patched(t, lib), lib, k);
    } else {
      PatchedByOne(t, lib, -1);
    }
  }

  lemma MintedIsPatched(lib: seq<LibTask>, k: nat)
    requires DistinctSources(lib) && k < |lib|
    ensures Patched(Minted(lib[k]), lib) == Minted(lib[k])
  {
    hide ForkedFrom, Source, Trimmed;
    TagReadsBack(lib[k]);
    PatchedByOne(Minted(lib[k]), lib, k);
  }

  /** With distinct sources free of outer white space, one run leaves at most one row a source, given that
      held before. */
  lemma DistinctSourcesKeepForksUnique(rows: Rows, pick: Index, lib: seq<LibTask>, ids: seq<string>, after: Rows)
    requires DistinctSources(lib) && UniqueForks(rows)
    requires RunInput(rows, pick, lib, ids) && RunTo(rows, pick, lib, ids, |lib|, after)
    ensures UniqueForks(after)
  {
    hide RunTo, RunInput, DistinctSources, Clashes, UniqueForks;
    RunKeepsForksUniqueExactly(rows, pick, lib, ids, after);
    forall i: nat, j: nat | i < |lib| && j < |lib| ensures !Clashes(rows, lib, i, j) {
      DistinctSourcesNeverClash(rows, lib, i, j);
    }
  }

  /** When no two rows share a source the index has every forked row, in whatever order they are listed. */
  lemma UniqueRowsArePicked(rows: Rows, pick: Index, id: string)
    requires UniqueForks(rows) && Picks(rows, pick) && id in rows
    ensures Picked(rows, pick, id) <==> ForkOf(rows[id]) != ""
  {
    hide ForkOf;
    assert ForkedAs(rows, ForkOf(rows[id]), id);
  }

  /** A run with distinct sources leaves every forked row as its library entry makes it, so patching it
      again changes nothing. */
  lemma RunPatchesAll(rows: Rows, pick: Index, lib: seq<LibTask>, ids: seq<string>, after: Rows, id: string)
    requires DistinctSources(lib) && UniqueForks(rows)
    requires RunInput(rows, pick, lib, ids) && RunTo(rows, pick, lib, ids, |lib|, after) && id in after
    ensures ForkOf(after[id]) != "" ==> Patched(after[id], lib) == after[id]
  {
    hide ForkOf, ReadBack, Minted, Source, Trimmed, Patched, Creates, UniqueForks, Picks;
    assert lib[..|lib|] == lib;
    if id in rows {
      assert RowAfter(rows, pick, lib, |lib|, id, after[id]);
      ForksAreTrimmedIn(rows, id);
      PatchedTwice(rows[id], lib);
      UniqueRowsArePicked(rows, pick, id);
    } else {
      var k :| 0 <= k < |lib| && ids[k] == id && Creates(rows, lib, k);
      MintedIsPatched(lib, k);
    }
  }

  /** And a second run over the same library, however its rows are listed, changes nothing. */
  lemma SyncConverges(rows: Rows, pick: Index, lib: seq<LibTask>, ids: seq<string>, after: Rows, pick': Index,
      ids': seq<string>, again: Rows)
    requires DistinctSources(lib) && UniqueForks(rows)
    requires RunInput(rows, pick, lib, ids) && RunTo(rows, pick, lib, ids, |lib|, after)
    requires RunInput(after, pick', lib, ids') && RunTo(after, pick', lib, ids', |lib|, again)
    ensures again == after
  {
    hide ForkOf, ReadBack, Minted, Source, Trimmed, Patched, Creates, UniqueForks, Picks, DistinctSources;
    DistinctSourcesKeepForksUnique(rows, pick, lib, ids, after);
    forall k: nat | k < |lib| ensures !Creates(after, lib, k) {
      CreatesAgain(rows, pick, lib, ids, after, k);
      SourceIsTrimmed(lib, k);
    }
    assert again.Keys == after.Keys;
    assert lib[..|lib|] == lib;
    forall id | id in after ensures again[id] == after[id] {
      assert RowAfter(after, pick', lib, |lib|, id, again[id]);
      UniqueRowsArePicked(after, pick', id);
      RunPatchesAll(rows, pick, lib, ids, after, id);
    }
  }

  lemma SourceIsTrimmed(lib: seq<LibTask>, k: nat)
    requires DistinctSources(lib) && k < |lib|
    ensures Trimmed(Source(lib[k]))
  {
  }

  lemma ForksAreTrimmedIn(rows: Rows, id: string)
    requires id in rows
    ensures Trimmed(ForkOf(rows[id]))
  {
    ForksAreTrimmed(rows[id].tags);
  }

  lemma LocalsAreTheSame(rows: Rows, pick: Index, lib: seq<LibTask>, ids: seq<string>, after: Rows, name: string)
    requires RunInput(rows, pick, lib, ids) && RunTo(rows, pick, lib, ids, |lib|, after)
    ensures HasLocal(after, name) <==> HasLocal(rows, name)
  {
    hide ForkOf, ReadBack, RowAfter, Minted, Source, Creates;
    if HasLocal(rows, name) {
      var id :| id in rows && ForkOf(rows[id]) == "" && rows[id].name == name;
      RunKeepsRows(rows, pick, lib, ids, after, id);
    }
    if HasLocal(after, name) {
      var id :| id in after && ForkOf(after[id]) == "" && after[id].name == name;
      if id in rows {
        RunKeepsRows(rows, pick, lib, ids, after, id);
      } else {
        var k :| 0 <= k < |lib| && ids[k] == id && Creates(rows, lib, k);
        CreatedRow(rows, pick, lib, ids, after, k);
      }
    }
  }

  // ----- Libraries that do not converge --------------------------------------------------------

  /** A name that ends in white space: on no rows, the first run creates a row for it, and so does the
      second. */
  lemma PaddedNameIsCreatedAgain() returns (lib: seq<LibTask>, after: Rows)
    ensures RunInput(map[], map[], lib, ["1"]) && RunTo(map[], map[], lib, ["1"], 1, after)
    ensures lib == [LibTask("t ", "b", "p")] && Creates(map[], lib, 0) && Creates(after, lib, 0)
  {
    hide ForkOf, Minted, ReadBack;
    var lt := LibTask("t ", "b", "p");
    lib, after := [lt], map["1" := Minted(lt)];
    assert Source(lt) == "p/t " && !Trimmed(Source(lt));
    var none: Rows, ids := map[], ["1"];
    assert forall src :: !HasFork(none, src);
    assert Creates(none, lib, 0) && ids[0] == "1";
    assert forall id :: id in after <==> exists i :: 0 <= i < 1 && ids[i] == id && Creates(none, lib, i);
    CreatesAgain(map[], map[], lib, ["1"], after, 0);
  }

  /** A publisher listed twice: on no rows, one run creates two rows for one source. */
  lemma RepeatedSourceIsCreatedTwice() returns (lib: seq<LibTask>, after: Rows)
    ensures RunInput(map[], map[], lib, ["1", "2"]) && RunTo(map[], map[], lib, ["1", "2"], 2, after)
    ensures lib == [LibTask("t", "b", "p"), LibTask("t", "b", "p")] && !UniqueForks(after)
  {
    hide ForkOf, Minted, ReadBack;
    var lt := LibTask("t", "b", "p");
    lib, after := [lt, lt], map["1" := Minted(lt), "2" := Minted(lt)];
    var none: Rows, ids := map[], ["1", "2"];
    assert forall src :: !HasFork(none, src);
    assert Creates(none, lib, 0) && Creates(none, lib, 1) && ids[0] == "1" && ids[1] == "2";
    assert forall id :: id in after <==> exists i :: 0 <= i < 2 && ids[i] == id && Creates(none, lib, i);
    assert Clashes(map[], lib, 0, 1);
    RunKeepsForksUniqueExactly(map[], map[], lib, ["1", "2"], after);
  }
}
