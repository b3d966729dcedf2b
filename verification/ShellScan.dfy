/** The commit gate's scanners: the files a command line writes, and the gated git command it runs
    (internal/cli/cmd_hook_commitgate.go). */
module ShellScan {
  import opened Text
  import opened ShellQuotes
  import opened ShellSegments
  import opened Heredoc
  import opened HeredocWords
  import opened ShellWords

  // ----- Redirection targets -------------------------------------------------------------------

  /** A match of redirectRe: it ends at `hi`, its operator is at `gt`, its operand is s[lo..hi]. */
  datatype Redirect = Redirect(gt: nat, lo: nat, hi: nat)

  /** redirectRe from its operator on. */
  function OperatorTail(s: string, gt: nat): (m: Option<Redirect>)
    requires gt < |s| && s[gt] == '>'
    ensures m.Some? ==> m.value.gt == gt < m.value.lo < m.value.hi <= |s|
  {
    var k := SkipBlanks(s, if gt + 1 < |s| && s[gt + 1] == '>' then gt + 2 else gt + 1);
    var e := OperandEnd(s, k);
    if e.None? then None else Some(Redirect(gt, k, e.value))
  }

  /** redirectRe matched at `i`: at the very start, or after a byte that is no digit, `&` or `>`. */
  function RedirectAt(s: string, i: nat): (m: Option<Redirect>)
    requires i <= |s|
    ensures m.Some? ==> i <= m.value.gt < m.value.lo < m.value.hi <= |s| && s[m.value.gt] == '>'
  {
    if i == 0 && s != "" && s[0] == '>' then OperatorTail(s, 0)
    else if i + 1 < |s| && s[i + 1] == '>' && !('0' <= s[i] <= '9') && s[i] != '&' && s[i] != '>'
      then OperatorTail(s, i + 1)
    else None
  }

  /** A path the gate looks at: not empty, no duplicated descriptor, no device. */
  predicate IsFile(p: string) {
    p != "" && !HasPrefix(p, "&") && !HasPrefix(p, "/dev/")
  }

  /** What one match contributes. */
  function TargetOf(s: string, m: Redirect): seq<string>
    requires m.gt < m.lo < m.hi <= |s|
  {
    var p := UnquoteArg(s[m.lo..m.hi]);
    if Mask(s)[m.gt] || !IsFile(p) then [] else [p]
  }

  function RedirectsFrom(s: string, i: nat): seq<string>
    requires i <= |s|
    decreases |s| - i
  {
    var m := RedirectAt(s, i);
    if m.Some? then TargetOf(s, m.value) + RedirectsFrom(s, m.value.hi)
    else if i == |s| then [] else RedirectsFrom(s, i + 1)
  }

  /** A match is taken: what it contributes goes after what was found before. */
  lemma MatchTaken(s: string, i: nat, m: Redirect, masked: bool, out: seq<string>)
    requires i <= |s| && RedirectAt(s, i) == Some(m) && masked == Mask(s)[m.gt]
    ensures var p := UnquoteArg(s[m.lo..m.hi]);
      out + RedirectsFrom(s, i) == (if !masked && IsFile(p) then out + [p] else out) + RedirectsFrom(s, m.hi)
  {
    hide RedirectAt, Mask, UnquoteArg, IsFile;
    var p := UnquoteArg(s[m.lo..m.hi]);
    var t, rest := TargetOf(s, m), RedirectsFrom(s, m.hi);
    assert RedirectsFrom(s, i) == t + rest;
    assert out + (t + rest) == (out + t) + rest;
    assert t == if !masked && IsFile(p) then [p] else [];
    assert out + [] == out;
  }

  lemma NoMatchTaken(s: string, i: nat)
    requires i <= |s| && RedirectAt(s, i).None?
    ensures RedirectsFrom(s, i) == if i == |s| then [] else RedirectsFrom(s, i + 1)
  {
    hide RedirectAt;
  }

  /** redirectTargets: the loop over the matches, skipping those whose operator is masked. */
  method RedirectTargets(seg: string) returns (out: seq<string>)
    ensures out == RedirectsFrom(seg, 0)
  {
    hide RedirectAt, Mask, RedirectsFrom, UnquoteArg, IsFile;
    var mask := QuoteMask(seg);
    out := [];
    var i := 0;
    while i < |seg|
      invariant 0 <= i <= |seg| && mask[..] == Mask(seg)
      invariant RedirectsFrom(seg, 0) == out + RedirectsFrom(seg, i)
    {
      var m := RedirectAt(seg, i);
      if m.Some? {
        var gt, lo, hi := m.value.gt, m.value.lo, m.value.hi;
        assert mask[gt] == mask[..][gt];
        MatchTaken(seg, i, m.value, mask[gt], out);
        var p := UnquoteArg(seg[lo..hi]);
        if !mask[gt] && IsFile(p) {
          out := out + [p];
        }
        i := hi;
      } else {
        NoMatchTaken(seg, i);
        i := i + 1;
      }
    }
    NothingPastEnd(seg);
  }

  /** A match is not empty, so none is at the end. */
  lemma NothingPastEnd(s: string)
    ensures RedirectsFrom(s, |s|) == []
  {
    hide TargetOf;
  }

  // ----- Command targets -----------------------------------------------------------------------

  predicate IsWrapper(base: string) {
    base == "sudo" || base == "env" || base == "command" || base == "nice" || base == "time" || base == "nohup"
  }

  /** Skip env assignments and wrapper commands. */
  function SkipPrefix(fields: seq<string>, i: nat): (j: nat)
    requires i <= |fields|
    ensures i <= j <= |fields|
    decreases |fields| - i
  {
    if i == |fields| then i
    else
      var f := fields[i];
      if (!HasPrefix(f, "-") && !HasPrefix(f, "/") && '=' in f) || IsWrapper(BaseName(f))
        then SkipPrefix(fields, i + 1) else i
  }

  function NonFlagArgs(args: seq<string>): seq<string> {
    if args == [] then []
    else (if HasPrefix(args[0], "-") then [] else [UnquoteArg(args[0])]) + NonFlagArgs(args[1..])
  }

  function LastOf(args: seq<string>): seq<string> {
    if args == [] then [] else [args[|args| - 1]]
  }

  predicate HasInPlaceFlag(args: seq<string>) {
    exists i :: 0 <= i < |args| && (HasPrefix(args[i], "-i") || HasPrefix(args[i], "--in-place"))
  }

  function GitMvArgs(args: seq<string>): seq<string> {
    if args == [] then [] else if args[0] == "mv" then NonFlagArgs(args[1..]) else GitMvArgs(args[1..])
  }

  /** commandMutationTargets. */
  function CommandTargets(seg: string): seq<string> {
    var fields := Fields(seg);
    var i := SkipPrefix(fields, 0);
    if i == |fields| then []
    else
      var cmd, args := BaseName(fields[i]), fields[i + 1..];
      if cmd == "mv" || cmd == "rm" || cmd == "tee" then NonFlagArgs(args)
      else if cmd == "cp" then LastOf(NonFlagArgs(args))
      else if cmd == "sed" then if HasInPlaceFlag(args) then LastOf(NonFlagArgs(args)) else []
      else if cmd == "git" && GitSub(fields) == "mv" then GitMvArgs(args)
      else []
  }

  lemma NoArgs()
    ensures NonFlagArgs([]) == []
  {
  }

  lemma OneArg(args: seq<string>, k: nat, out: seq<string>)
    requires k < |args|
    ensures out + NonFlagArgs(args[k..])
      == (if HasPrefix(args[k], "-") then out else out + [UnquoteArg(args[k])]) + NonFlagArgs(args[k + 1..])
  {
    hide HasPrefix, UnquoteArg;
    var rest, more := args[k..], NonFlagArgs(args[k + 1..]);
    assert rest[1..] == args[k + 1..];
    assert out + [] == out && [] + more == more;
    assert out + ([UnquoteArg(args[k])] + more) == (out + [UnquoteArg(args[k])]) + more;
  }

  /** nonFlagArgs. */
  method CollectNonFlags(args: seq<string>) returns (out: seq<string>)
    ensures out == NonFlagArgs(args)
  {
    hide HasPrefix, UnquoteArg, NonFlagArgs;
    out := [];
    assert args[0..] == args && [] + NonFlagArgs(args) == NonFlagArgs(args);
    for k := 0 to |args|
      invariant NonFlagArgs(args) == out + NonFlagArgs(args[k..])
    {
      OneArg(args, k, out);
      if !HasPrefix(args[k], "-") {
        out := out + [UnquoteArg(args[k])];
      }
    }
    assert args[|args|..] == [];
    NoArgs();
  }

  /** hasInPlaceFlag. */
  method FindInPlaceFlag(args: seq<string>) returns (found: bool)
    ensures found <==> HasInPlaceFlag(args)
  {
    for k := 0 to |args|
      invariant forall i :: 0 <= i < k ==> !HasPrefix(args[i], "-i") && !HasPrefix(args[i], "--in-place")
    {
      if HasPrefix(args[k], "-i") || HasPrefix(args[k], "--in-place") {
        return true;
      }
    }
    return false;
  }

  /** gitMvArgs. */
  method CollectMvArgs(args: seq<string>) returns (out: seq<string>)
    ensures out == GitMvArgs(args)
  {
    for k := 0 to |args|
      invariant GitMvArgs(args) == GitMvArgs(args[k..])
    {
      assert args[k..][1..] == args[k + 1..];
      if args[k] == "mv" {
        out := CollectNonFlags(args[k + 1..]);
        return;
      }
    }
    return [];
  }

  /** commandMutationTargets: skip the prefix, then by command. */
  method CommandMutationTargets(seg: string) returns (out: seq<string>)
    ensures out == CommandTargets(seg)
  {
    hide Fields, BaseName, NonFlagArgs, GitMvArgs, GitSub;
    var fields := Fields(seg);
    var i := 0;
    while i < |fields| && ((!HasPrefix(fields[i], "-") && !HasPrefix(fields[i], "/") && '=' in fields[i])
                           || IsWrapper(BaseName(fields[i])))
      invariant 0 <= i <= |fields| && SkipPrefix(fields, 0) == SkipPrefix(fields, i)
    {
      i := i + 1;
    }
    if i >= |fields| {
      return [];
    }
    var cmd, args := BaseName(fields[i]), fields[i + 1..];
    if cmd == "mv" || cmd == "rm" || cmd == "tee" {
      out := CollectNonFlags(args);
      return;
    } else if cmd == "cp" {
      var na := CollectNonFlags(args);
      return LastOf(na);
    } else if cmd == "sed" {
      var inPlace := FindInPlaceFlag(args);
      if inPlace {
        var na := CollectNonFlags(args);
        return LastOf(na);
      }
    } else if cmd == "git" {
      var sub := GitSubcommand(seg);
      if sub == "mv" {
        out := CollectMvArgs(args);
        return;
      }
    }
    return [];
  }

  /** What one segment writes. */
  function SegmentTargets(seg: string): seq<string> {
    RedirectsFrom(seg, 0) + CommandTargets(seg)
  }

  function TargetsOf(segs: seq<string>): seq<string> {
    if segs == [] then [] else TargetsOf(segs[..|segs| - 1]) + SegmentTargets(segs[|segs| - 1])
  }

  /** bashMutationTargets. */
  method BashMutationTargets(command: string) returns (out: seq<string>)
    ensures out == TargetsOf(Segments(command))
  {
    hide RedirectsFrom, CommandTargets, Segments;
    var segs := SplitShellSegments(command);
    out := [];
    for k := 0 to |segs|
      invariant out == TargetsOf(segs[..k])
    {
      assert segs[..k + 1][..k] == segs[..k];
      var redirects := RedirectTargets(segs[k]);
      out := out + redirects;
      var written := CommandMutationTargets(segs[k]);
      out := out + written;
    }
    assert segs[..|segs|] == segs;
  }

  lemma {:induction false} TargetsAppend(a: seq<string>, b: seq<string>)
    ensures TargetsOf(a + b) == TargetsOf(a) + TargetsOf(b)
    decreases |b|
  {
    hide SegmentTargets;
    if b == [] {
      assert a + b == a;
    } else {
      assert (a + b)[..|a + b| - 1] == a + b[..|b| - 1];
      TargetsAppend(a, b[..|b| - 1]);
    }
  }

  /** The mutation targets of `a;b` are those of `a` and then those of `b`. */
  lemma TargetsHomomorphism(a: string, c: char, b: string)
    requires (c == ';' || c == '\n') && StateAfter(Out, a) == Out
    ensures TargetsOf(Segments(a + [c] + b)) == TargetsOf(Segments(a)) + TargetsOf(Segments(b))
  {
    hide Segments, TargetsOf, StateAfter;
    SegmentsHomomorphism(a, c, b);
    TargetsAppend(Segments(a), Segments(b));
  }

  /** And those of `a && b`, unless `a` ends in an odd run of `&`. */
  lemma TargetsHomomorphismAtAnd(a: string, b: string)
    requires StateAfter(Out, a) == Out && Amps(a) % 2 == 0
    ensures TargetsOf(Segments(a + "&&" + b)) == TargetsOf(Segments(a)) + TargetsOf(Segments(b))
  {
    hide Segments, TargetsOf, StateAfter, Amps;
    SegmentsHomomorphismAtAnd(a, b);
    TargetsAppend(Segments(a), Segments(b));
  }

  /** The match m of a redirection in `s` reports the target p, and no quotes of `s` enclose its
      operator. */
  predicate Redirects(s: string, m: Redirect, p: string) {
    m.gt < m.lo < m.hi <= |s| && s[m.gt] == '>' && !Mask(s)[m.gt] && p == UnquoteArg(s[m.lo..m.hi])
  }

  lemma {:induction false} RedirectHasOperator(seg: string, i: nat, p: string) returns (m: Redirect)
    requires i <= |seg| && p in RedirectsFrom(seg, i)
    ensures i <= m.gt && Redirects(seg, m, p)
    decreases |seg| - i
  {
    hide RedirectAt, Mask;
    var found := RedirectAt(seg, i);
    if found.Some? && p in TargetOf(seg, found.value) {
      m := found.value;
    } else if found.Some? {
      m := RedirectHasOperator(seg, found.value.hi, p);
    } else {
      m := RedirectHasOperator(seg, i + 1, p);
    }
  }

  /** A redirection of a segment is one of the whole command, although the mask is recomputed segment by
      segment. */
  lemma RedirectInCommand(s: string, seg: string, at: nat, m: Redirect, p: string)
    requires SegmentAt(s, seg, at) && Redirects(seg, m, p)
    ensures Redirects(s, Redirect(at + m.gt, at + m.lo, at + m.hi), p)
  {
    hide Mask, Clean, StateAfter, UnquoteArg;
    assert s[at + m.gt] == s[at..at + |seg|][m.gt] == seg[m.gt];
    assert Mask(s)[at + m.gt] == Mask(s)[at..at + |seg|][m.gt] == Mask(seg)[m.gt];
    SliceOfSlice(s, at, |seg|, m.lo, m.hi);
    assert s[at + m.lo..at + m.hi] == seg[m.lo..m.hi];
  }

  /** Every redirection target reported for any segment of a command is the operand of a `>` of that
      command which lies outside all of its quotes. */
  lemma ReportedRedirectIsUnquoted(s: string, k: nat, p: string)
    requires k < |Segments(s)| && p in RedirectsFrom(Segments(s)[k], 0)
    ensures exists m :: Redirects(s, m, p)
  {
    hide RedirectsFrom, Redirects, Mask, Segments, SegmentAt, GapAfter;
    SegmentsPartition(s);
    var starts :| Partition(s, Segments(s), starts);
    var m := RedirectHasOperator(Segments(s)[k], 0, p);
    RedirectInCommand(s, Segments(s)[k], starts[k], m, p);
  }

  // ----- Git -----------------------------------------------------------------------------------

  predicate TakesValue(option: string) {
    option == "-C" || option == "-c" || option == "--git-dir" || option == "--work-tree" || option == "--namespace"
  }

  /** The first word from `j` on that is no global option and no value of one. */
  function SubFrom(fields: seq<string>, j: nat): string
    decreases |fields| - j
  {
    if j >= |fields| then ""
    else if TakesValue(fields[j]) then SubFrom(fields, j + 2)
    else if HasPrefix(fields[j], "-") then SubFrom(fields, j + 1)
    else ToLower(fields[j])
  }

  function GitSubFrom(fields: seq<string>, i: nat): string
    decreases |fields| - i
  {
    if i >= |fields| then ""
    else if BaseName(fields[i]) == "git" then SubFrom(fields, i + 1)
    else GitSubFrom(fields, i + 1)
  }

  function GitSub(fields: seq<string>): string {
    GitSubFrom(fields, 0)
  }

  /** gitSubcommand: the two nested index loops. */
  method GitSubcommand(seg: string) returns (sub: string)
    ensures sub == GitSub(Fields(seg))
  {
    hide Fields, BaseName, ToLower;
    var fields := Fields(seg);
    var i := 0;
    while i < |fields|
      invariant 0 <= i <= |fields| && GitSub(fields) == GitSubFrom(fields, i)
    {
      if BaseName(fields[i]) == "git" {
        var j := i + 1;
        while j < |fields|
          invariant j >= 0 && GitSub(fields) == SubFrom(fields, j)
          decreases |fields| - j
        {
          var a := fields[j];
          if TakesValue(a) {
            j := j + 2;
          } else if HasPrefix(a, "-") {
            j := j + 1;
          } else {
            return ToLower(a);
          }
        }
        return "";
      }
      i := i + 1;
    }
    return "";
  }

  /** A git global option as it is written: alone, or followed by its value. */
  datatype GlobalOption = Flag(name: string) | Valued(name: string, val: string)

  /** The options that take their value from the next word, and every other word that starts with a dash. */
  predicate WellFormedOption(o: GlobalOption) {
    match o
    case Flag(name) => HasPrefix(name, "-") && name !in {"-C", "-c", "--git-dir", "--work-tree", "--namespace"}
    case Valued(name, _) => name in {"-C", "-c", "--git-dir", "--work-tree", "--namespace"}
  }

  function Written(options: seq<GlobalOption>): seq<string> {
    if options == [] then []
    else (match options[0] case Flag(n) => [n] case Valued(n, v) => [n, v]) + Written(options[1..])
  }

  lemma ValuedOption(name: string)
    ensures TakesValue(name) <==> name in {"-C", "-c", "--git-dir", "--work-tree", "--namespace"}
  {
  }

  lemma {:induction false} SubSkipsOptions(before: seq<string>, options: seq<GlobalOption>, after: seq<string>)
    requires forall o :: o in options ==> WellFormedOption(o)
    ensures SubFrom(before + Written(options) + after, |before|)
      == SubFrom(before + Written(options) + after, |before| + |Written(options)|)
    decreases |options|
  {
    hide TakesValue, ToLower;
    if options != [] {
      var words := match options[0] case Flag(n) => [n] case Valued(n, v) => [n, v];
      assert WellFormedOption(options[0]);
      ValuedOption(options[0].name);
      assert forall o :: o in options[1..] ==> o in options;
      var fields := before + Written(options) + after;
      assert fields == (before + words) + Written(options[1..]) + after;
      assert fields[|before|] == words[0] == options[0].name;
      SubSkipsOptions(before + words, options[1..], after);
    }
  }

  lemma {:induction false} GitFound(before: seq<string>, git: string, after: seq<string>, i: nat)
    requires i <= |before| && BaseName(git) == "git" && forall w :: w in before ==> BaseName(w) != "git"
    ensures GitSubFrom(before + [git] + after, i) == SubFrom(before + [git] + after, |before| + 1)
    decreases |before| - i
  {
    hide SubFrom, BaseName;
    var fields := before + [git] + after;
    if i == |before| {
      assert fields[i] == git;
    } else {
      assert fields[i] == before[i] && before[i] in before;
      GitFound(before, git, after, i + 1);
    }
  }

  /** Whatever wrapper words come before git, and whatever global options after it, with or without
      values, the subcommand is the first word after them. */
  lemma GlobalOptionsAreSkipped(before: seq<string>, git: string, options: seq<GlobalOption>, sub: string,
      after: seq<string>)
    requires BaseName(git) == "git" && forall w :: w in before ==> BaseName(w) != "git"
    requires forall o :: o in options ==> WellFormedOption(o)
    requires !HasPrefix(sub, "-")
    ensures GitSub(before + [git] + Written(options) + [sub] + after) == ToLower(sub)
  {
    hide BaseName, ToLower, Written;
    var rest := [sub] + after;
    var fields := (before + [git]) + Written(options) + rest;
    assert fields == before + [git] + (Written(options) + rest);
    assert fields == before + [git] + Written(options) + [sub] + after;
    GitFound(before, git, Written(options) + rest, 0);
    SubSkipsOptions(before + [git], options, rest);
    assert fields[|before| + 1 + |Written(options)|] == sub;
  }

  datatype GitAction = NotGated | Push | Commit

  /** Push over commit over none. */
  function Stronger(a: GitAction, b: GitAction): GitAction {
    if a.Push? || b.Push? then Push else if a.Commit? || b.Commit? then Commit else NotGated
  }

  ghost predicate Runs(segs: seq<string>, sub: string) {
    exists k :: 0 <= k < |segs| && GitSub(Fields(segs[k])) == sub
  }

  /** What a list of segments is gated as. */
  ghost function Gated(segs: seq<string>, gateCommit: bool): GitAction {
    if Runs(segs, "push") then Push else if gateCommit && Runs(segs, "commit") then Commit else NotGated
  }

  /** classifyGitCommand. */
  method ClassifyGitCommand(command: string, gateCommit: bool) returns (action: GitAction)
    ensures action == Gated(Segments(command), gateCommit)
  {
    hide Segments, GitSub, Fields;
    var sawCommit := false;
    var segs := SplitShellSegments(command);
    for k := 0 to |segs|
      invariant forall m :: 0 <= m < k ==> GitSub(Fields(segs[m])) != "push"
      invariant sawCommit <==> exists m :: 0 <= m < k && GitSub(Fields(segs[m])) == "commit"
    {
      var sub := GitSubcommand(segs[k]);
      if sub == "push" {
        return Push;
      } else if sub == "commit" {
        sawCommit := true;
      }
    }
    if gateCommit && sawCommit {
      return Commit;
    }
    return NotGated;
  }

  lemma RunsAppend(a: seq<string>, b: seq<string>, sub: string)
    ensures Runs(a + b, sub) <==> Runs(a, sub) || Runs(b, sub)
  {
    hide GitSub, Fields;
    if Runs(a, sub) {
      var k :| 0 <= k < |a| && GitSub(Fields(a[k])) == sub;
      assert (a + b)[k] == a[k];
    }
    if Runs(b, sub) {
      var k :| 0 <= k < |b| && GitSub(Fields(b[k])) == sub;
      assert (a + b)[|a| + k] == b[k];
    }
  }

  /** The git classification of `a;b` is the stronger of the two. */
  lemma ClassificationHomomorphism(a: string, c: char, b: string, gateCommit: bool)
    requires (c == ';' || c == '\n') && StateAfter(Out, a) == Out
    ensures Gated(Segments(a + [c] + b), gateCommit)
      == Stronger(Gated(Segments(a), gateCommit), Gated(Segments(b), gateCommit))
  {
    hide Segments, StateAfter, Runs;
    SegmentsHomomorphism(a, c, b);
    RunsAppend(Segments(a), Segments(b), "push");
    RunsAppend(Segments(a), Segments(b), "commit");
  }

  /** And so is that of `a && b`, the compound that commits and then pushes. */
  lemma ClassificationHomomorphismAtAnd(a: string, b: string, gateCommit: bool)
    requires StateAfter(Out, a) == Out && Amps(a) % 2 == 0
    ensures Gated(Segments(a + "&&" + b), gateCommit)
      == Stronger(Gated(Segments(a), gateCommit), Gated(Segments(b), gateCommit))
  {
    hide Segments, StateAfter, Runs, Amps;
    SegmentsHomomorphismAtAnd(a, b);
    RunsAppend(Segments(a), Segments(b), "push");
    RunsAppend(Segments(a), Segments(b), "commit");
  }

  /** A command line of one git command, in bare words: whatever comes before git and whatever global options
      after it, it is gated as a push or a commit exactly when that is the word after them, in any case. */
  lemma GitCommandIsGated(gaps: seq<string>, before: seq<string>, git: string, options: seq<GlobalOption>,
      sub: string, after: seq<string>, gateCommit: bool)
    requires var words := before + [git] + Written(options) + [sub] + after;
      && |gaps| == |words| + 1 && AreGaps(gaps) && (forall w :: w in words ==> IsWord(w))
      && IsPiece(Bare(Spaced(gaps, words)))
    requires BaseName(git) == "git" && forall w :: w in before ==> BaseName(w) != "git"
    requires (forall o :: o in options ==> WellFormedOption(o)) && !HasPrefix(sub, "-")
    ensures var line := Spaced(gaps, before + [git] + Written(options) + [sub] + after);
      Gated(Segments(line), gateCommit) ==
        if |sub| == 4 && forall i :: 0 <= i < 4 ==> sub[i] == "push"[i] || sub[i] == "PUSH"[i] then Push
        else if gateCommit && |sub| == 6 && forall i :: 0 <= i < 6 ==> sub[i] == "commit"[i] || sub[i] == "COMMIT"[i]
          then Commit
        else NotGated
  {
    hide Spaced, AreGaps, IsWord, IsPiece, BaseName, GitSub, Fields, Segments, Written, ToLower;
    var words := before + [git] + Written(options) + [sub] + after;
    var line := Spaced(gaps, words);
    BareLine(line);
    FieldsOfSpaced(gaps, words);
    GlobalOptionsAreSkipped(before, git, options, sub, after);
    LowersTo(sub, "push", "PUSH");
    LowersTo(sub, "commit", "COMMIT");
    GatedAlone(line, gateCommit);
  }

  lemma BareLine(line: string)
    requires IsPiece(Bare(line))
    ensures Segments(line) == [line]
  {
    hide SplitFrom, IsPiece;
    PieceRead("", Bare(line), "");
    assert line + "" == line && "" + line == line;
    OneSegment(line);
  }

  lemma GatedAlone(seg: string, gateCommit: bool)
    ensures Gated([seg], gateCommit) ==
      if GitSub(Fields(seg)) == "push" then Push
      else if gateCommit && GitSub(Fields(seg)) == "commit" then Commit else NotGated
  {
    hide GitSub, Fields;
    assert [seg][0] == seg;
  }

  // ----- What a command writes -----------------------------------------------------------------

  lemma {:induction false} NonFlagsAppend(a: seq<string>, b: seq<string>)
    ensures NonFlagArgs(a + b) == NonFlagArgs(a) + NonFlagArgs(b)
    decreases |a|
  {
    hide UnquoteArg;
    if a == [] {
      assert a + b == b;
    } else {
      assert (a + b)[1..] == a[1..] + b;
      NonFlagsAppend(a[1..], b);
    }
  }

  /** The arguments kept are those that are no flags, in order, without their quotes. */
  lemma NonFlagsInOrder(a: seq<string>, arg: string, b: seq<string>)
    ensures NonFlagArgs([]) == []
    ensures NonFlagArgs(a + [arg] + b)
      == NonFlagArgs(a) + (if "-" <= arg then [] else [UnquoteArg(arg)]) + NonFlagArgs(b)
  {
    hide UnquoteArg;
    NonFlagsAppend(a + [arg], b);
    NonFlagsAppend(a, [arg]);
    assert [arg][1..] == [];
  }

  /** A word that is passed over before the command: an assignment, or a wrapper command. */
  predicate IsSkipped(w: string) {
    || (!("-" <= w) && !("/" <= w) && '=' in w)
    || BaseName(w) in {"sudo", "env", "command", "nice", "time", "nohup"}
  }

  lemma {:induction false} PrefixSkipped(before: seq<string>, cmd: string, args: seq<string>, i: nat)
    requires i <= |before| && (forall w :: w in before ==> IsSkipped(w)) && !IsSkipped(cmd)
    ensures SkipPrefix(before + [cmd] + args, i) == |before|
    decreases |before| - i
  {
    hide BaseName;
    var fields := before + [cmd] + args;
    if i < |before| {
      assert fields[i] == before[i] && before[i] in before;
      PrefixSkipped(before, cmd, args, i + 1);
    } else {
      assert fields[i] == cmd;
    }
  }

  lemma MvSkips(before: seq<string>, rest: seq<string>)
    requires "mv" !in before
    ensures GitMvArgs(before + ["mv"] + rest) == NonFlagArgs(rest)
    ensures GitMvArgs(before) == []
    decreases |before|
  {
    hide NonFlagArgs;
    var args := before + ["mv"] + rest;
    if before == [] {
      assert args[1..] == rest;
    } else {
      assert before[0] in before && args[0] == before[0] && args[1..] == before[1..] + ["mv"] + rest;
      assert forall w :: w in before[1..] ==> w in before;
      MvSkips(before[1..], rest);
    }
  }

  /** What a segment writes by its command: every argument of mv, rm and tee that is no flag, the last such
      of cp, and of sed when it edits in place, and what follows the mv of git; nothing by another command. */
  lemma CommandWrites(seg: string, before: seq<string>, cmd: string, args: seq<string>)
    requires Fields(seg) == before + [cmd] + args
    requires (forall w :: w in before ==> IsSkipped(w)) && !IsSkipped(cmd)
    ensures var (base, na) := (BaseName(cmd), NonFlagArgs(args));
      var last := if na == [] then [] else [na[|na| - 1]];
      CommandTargets(seg) ==
        if base in {"mv", "rm", "tee"} then na
        else if base == "cp" then last
        else if base == "sed" && exists i :: 0 <= i < |args| && ("-i" <= args[i] || "--in-place" <= args[i]) then last
        else if base == "git" && GitSub(before + [cmd] + args) == "mv" then GitMvArgs(args)
        else []
  {
    hide Fields, CommandTargets, BaseName, NonFlagArgs, GitMvArgs, GitSub, IsSkipped;
    PrefixSkipped(before, cmd, args, 0);
    var fields := before + [cmd] + args;
    assert fields[|before|] == cmd && fields[|before| + 1..] == args;
    ByCommand(seg, fields, cmd, args);
  }

  lemma ByCommand(seg: string, fields: seq<string>, cmd: string, args: seq<string>)
    requires Fields(seg) == fields && SkipPrefix(fields, 0) < |fields|
    requires fields[SkipPrefix(fields, 0)] == cmd && fields[SkipPrefix(fields, 0) + 1..] == args
    ensures var (base, na) := (BaseName(cmd), NonFlagArgs(args));
      CommandTargets(seg) ==
        if base == "mv" || base == "rm" || base == "tee" then na
        else if base == "cp" || (base == "sed" && HasInPlaceFlag(args)) then LastOf(na)
        else if base == "git" && GitSub(fields) == "mv" then GitMvArgs(args)
        else []
  {
    hide Fields, BaseName, NonFlagArgs, GitMvArgs, GitSub, SkipPrefix, HasInPlaceFlag;
  }

  /** And without a command it writes nothing. */
  lemma {:induction false} OnlyPrefixWritesNothing(seg: string)
    requires forall w :: w in Fields(seg) ==> IsSkipped(w)
    ensures CommandTargets(seg) == []
  {
    hide Fields, BaseName;
    AllSkipped(Fields(seg), 0);
  }

  lemma {:induction false} AllSkipped(fields: seq<string>, i: nat)
    requires i <= |fields| && forall w :: w in fields ==> IsSkipped(w)
    ensures SkipPrefix(fields, i) == |fields|
    decreases |fields| - i
  {
    hide BaseName;
    if i < |fields| {
      assert fields[i] in fields;
      AllSkipped(fields, i + 1);
    }
  }

  /** Without a `>` from i on there is no redirection. */
  lemma {:induction false} NoRedirects(s: string, i: nat)
    requires i <= |s| && forall j :: i <= j < |s| ==> s[j] != '>'
    ensures RedirectsFrom(s, i) == []
    decreases |s| - i
  {
    hide TargetOf;
    if i < |s| {
      NoRedirects(s, i + 1);
    }
  }

  lemma {:induction false} RedirectsUpTo(s: string, i: nat, k: nat)
    requires i <= k <= |s| && forall j :: i <= j < k ==> RedirectAt(s, j).None?
    ensures RedirectsFrom(s, i) == RedirectsFrom(s, k)
    decreases k - i
  {
    hide RedirectAt, TargetOf;
    if i < k {
      RedirectsUpTo(s, i + 1, k);
    }
  }

  /** The operator at `gt`, with its operand at `k`. */
  lemma RedirectRead(s: string, gt: nat, op: string, k: nat, operand: string, x: string, post: string)
    requires gt + |op| <= k <= |s| && s[gt..gt + |op|] == op && (op == ">" || op == ">>")
    requires (forall j :: gt + |op| <= j < k ==> s[j] == ' ' || s[j] == '\t') && s[k..] == operand + post
    requires IsOperand(operand, x, post)
    ensures k < k + |operand| <= |s| && OperatorTail(s, gt) == Some(Redirect(gt, k, k + |operand|))
    ensures s[k..k + |operand|] == operand && s[k + |operand|..] == post
  {
    hide OperandEnd, IsOperand, SkipBlanks;
    OperandRead(s, k, operand, x, post);
    assert s[gt] == op[0] && (|op| == 2 ==> s[gt + 1] == op[1]);
    BlanksSkipped(s, gt + |op|, k);
  }

  lemma OperandIs(operand: string, x: string, post: string)
    requires IsOperand(operand, x, post)
    ensures UnquoteArg(operand) == x && operand != ""
  {
    UnquoteArgIs(x);
  }

  /** A redirection outside quotes: its operand is reported, without its quotes, unless a digit or `&` stands
      before the operator, or it is empty, or a descriptor, or a device; and with no other `>` nothing else
      is. */
  lemma RedirectIsReported(pre: string, op: string, blanks: string, operand: string, x: string, post: string)
    requires '>' !in pre && '>' !in post && StateAfter(Out, pre) == Out && (op == ">" || op == ">>")
    requires Blank(blanks) && IsOperand(operand, x, post)
    requires pre != "" ==> !('0' <= pre[|pre| - 1] <= '9') && pre[|pre| - 1] != '&'
    ensures RedirectsFrom(pre + op + blanks + operand + post, 0) ==
      if x == "" || "&" <= x || "/dev/" <= x then [] else [x]
  {
    hide OperatorTail, Mask, UnquoteArg, IsOperand, StateAfter, RedirectsFrom;
    var s := pre + op + blanks + operand + post;
    var gt, k := |pre|, |pre| + |op| + |blanks|;
    FivePlaces(s, pre, op, blanks, operand, post);
    assert s[gt..gt + |op|] == op && s[k..] == operand + post;
    assert forall j :: 0 <= j < |blanks| ==> blanks[j] in blanks;
    RedirectRead(s, gt, op, k, operand, x, post);
    OperandIs(operand, x, post);
    MaskAt(s, gt);
    assert s[..gt] == pre && !Mask(s)[gt];
    var i := if pre == "" then 0 else gt - 1;
    assert RedirectAt(s, i) == Some(Redirect(gt, k, k + |operand|));
    assert forall j :: 0 <= j < i ==> RedirectAt(s, j).None?;
    RedirectsUpTo(s, 0, i);
    hide RedirectAt;
    RedirectTaken(s, i, Redirect(gt, k, k + |operand|));
    NoRedirects(s, k + |operand|);
  }

  /** And behind a digit or `&` there is none. */
  lemma NumberedIsNoRedirect(pre: string, op: string, rest: string)
    requires '>' !in pre && '>' !in rest && pre != "" && (op == ">" || op == ">>")
    requires '0' <= pre[|pre| - 1] <= '9' || pre[|pre| - 1] == '&'
    ensures RedirectsFrom(pre + op + rest, 0) == []
  {
    hide OperatorTail, RedirectsFrom;
    var s, e := pre + op + rest, |pre| + |op|;
    assert forall j :: 0 <= j < |pre| ==> s[j] == pre[j];
    assert forall j :: e <= j < |s| ==> s[j] == rest[j - e];
    assert s[|pre|] == op[0] && (|op| == 2 ==> s[|pre| + 1] == op[1]);
    assert forall j :: 0 <= j < e ==> RedirectAt(s, j).None?;
    RedirectsUpTo(s, 0, e);
    NoRedirects(s, e);
  }

  lemma RedirectTaken(s: string, i: nat, m: Redirect)
    requires i <= |s| && RedirectAt(s, i) == Some(m)
    ensures RedirectsFrom(s, i) == TargetOf(s, m) + RedirectsFrom(s, m.hi)
  {
    hide RedirectAt, TargetOf;
  }

  // ----- The two scans of the hook -------------------------------------------------------------

  datatype Scan = Scan(targets: seq<string>, action: GitAction)

  /** What the hook reads off a command: both scans of the stripped text. */
  ghost function ScanOf(command: string, gateCommit: bool): Scan {
    var segs := Segments(Strip(command));
    Scan(TargetsOf(segs), Gated(segs, gateCommit))
  }

  /** runHookCommitGate, its scans: the command is trimmed first, and an empty one passes unread. */
  method ScanCommand(raw: string, gateCommit: bool) returns (targets: seq<string>, action: GitAction)
    ensures Scan(targets, action) == ScanOf(TrimSpace(raw), gateCommit)
  {
    hide Strip, Segments, TargetsOf, Gated, TrimSpace;
    var command := TrimSpace(raw);
    if command == "" {
      NothingToScan(gateCommit);
      return [], NotGated;
    }
    var scan := StripHeredocs(command);
    targets := BashMutationTargets(scan);
    action := ClassifyGitCommand(scan, gateCommit);
  }

  /** Passing the empty command unread is what scanning it would come to. */
  lemma NothingToScan(gateCommit: bool)
    ensures ScanOf("", gateCommit) == Scan([], NotGated)
  {
    assert Lines("") == [""] && DropHereStrings("", 0) == "" && FindOperator("", 0).None?;
    assert Strip("") == "" && Segments("") == [""];
    assert Fields("") == [] && RedirectsFrom("", 0) == [];
    assert TargetsOf([""][..0]) == [];
  }

  /** Neither scan of a command, once trimmed, sees the body of a heredoc: replacing the body lines of an
      open heredoc by any lines that do not close it changes no target and no classification. */
  lemma ScanIgnoresHeredocBodies(before: seq<string>, body: seq<string>, other: seq<string>, after: seq<string>,
      gateCommit: bool)
    requires forall l :: l in before + body + other + after ==> '\n' !in l
    requires var doc := DocAfter(NoDoc, before);
      doc.InDoc? && forall l :: l in body + other ==> !Closes(doc, l)
    ensures ScanOf(Join(before + body + after), gateCommit) == ScanOf(Join(before + other + after), gateCommit)
  {
    hide Segments, TargetsOf, Gated, StripFrom, Closes, Join, Lines;
    assert before != [] by {
      assert DocAfter(NoDoc, []) == NoDoc;
    }
    hide DocAfter;
    SplitBack(before + body + after, before + body + other + after);
    SplitBack(before + other + after, before + body + other + after);
    BodyLinesDoNotMatter(before, body, other, after);
  }

  lemma SplitBack(lines: seq<string>, all: seq<string>)
    requires lines != [] && (forall l :: l in all ==> '\n' !in l) && forall l :: l in lines ==> l in all
    ensures Lines(Join(lines)) == lines
  {
    hide Lines, Join;
    LinesJoin(lines);
  }
}
