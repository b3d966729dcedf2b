/** Which heredocs and here-strings a command line has, read off its text: the delimiter an operator names,
    the line that closes it, and what is no operator (internal/cli/cmd_hook_commitgate.go). */
module HeredocWords {
  import opened Text
  import opened Heredoc

  // ----- What an operator names ----------------------------------------------------------------

  predicate Blank(s: string) {
    forall c :: c in s ==> c == ' ' || c == '\t'
  }

  /** A letter, a digit or `_`. */
  predicate InName(c: char) {
    'a' <= c <= 'z' || 'A' <= c <= 'Z' || c == '_' || '0' <= c <= '9'
  }

  /** The operand of a heredoc operator that names the delimiter `w`: in single quotes, in double quotes, or
      bare, as a shell name that what follows it does not lengthen. */
  predicate Names(op: string, w: string, post: string) {
    || (op == "'" + w + "'" && w != "" && '\'' !in w)
    || (op == "\"" + w + "\"" && w != "" && '"' !in w)
    || (op == w != "" && (forall c :: c in w ==> InName(c)) && !('0' <= w[0] <= '9')
        && (post == "" || !InName(post[0])))
  }

  /** A command line with one heredoc operator. */
  function OperatorLine(pre: string, tabs: bool, blanks: string, op: string, post: string): string {
    pre + "<<" + (if tabs then "-" else "") + blanks + op + post
  }

  lemma {:induction false} BlanksSkipped(s: string, i: nat, k: nat)
    requires i <= k <= |s| && (forall j :: i <= j < k ==> s[j] == ' ' || s[j] == '\t')
    requires k < |s| ==> s[k] != ' ' && s[k] != '\t'
    ensures SkipBlanks(s, i) == k
    decreases k - i
  {
    if i < k {
      BlanksSkipped(s, i + 1, k);
    }
  }

  lemma {:induction false} WordRead(s: string, i: nat, k: nat)
    requires i <= k <= |s| && (forall j :: i <= j < k ==> InName(s[j])) && (k < |s| ==> !InName(s[k]))
    ensures WordEnd(s, i) == k
    decreases k - i
  {
    if i < k {
      WordRead(s, i + 1, k);
    }
  }

  lemma FoundFrom(s: string, c: char, from: nat, k: nat)
    requires from <= k < |s| && s[k] == c && forall j :: from <= j < k ==> s[j] != c
    ensures IndexFrom(s, c, from) == k
  {
    assert IndexFrom(s, c, from) >= 0;
  }

  lemma {:induction false} FirstOperator(s: string, i: nat, k: nat)
    requires i <= k <= |s| && OperatorAt(s, k).Some? && forall j :: i <= j < k ==> OperatorAt(s, j).None?
    ensures FindOperator(s, i) == OperatorAt(s, k)
    decreases k - i
  {
    hide OperatorAt;
    if i < k {
      FirstOperator(s, i + 1, k);
    }
  }

  /** The pieces of an operator line, by their places. */
  lemma OperatorPlaces(s: string, pre: string, tabs: bool, blanks: string, op: string, post: string)
    requires s == OperatorLine(pre, tabs, blanks, op, post) && '<' !in pre + op + post && Blank(blanks)
    ensures var i := |pre| + if tabs then 3 else 2;
      var k := i + |blanks|;
      && k + |op| <= |s| && s[k..k + |op|] == op && s[k + |op|..] == post && s[..|pre|] == pre
      && s[|pre|] == s[|pre| + 1] == '<' && (tabs ==> s[|pre| + 2] == '-')
      && (forall j :: i <= j < k ==> s[j] == ' ' || s[j] == '\t')
      && (forall j :: 0 <= j < |s| && s[j] == '<' ==> j == |pre| || j == |pre| + 1)
  {
    var dash := "<<" + if tabs then "-" else "";
    FivePlaces(s, pre, dash, blanks, op, post);
    assert s[|pre|] == dash[0] && s[|pre| + 1] == dash[1] && (tabs ==> s[|pre| + 2] == dash[2]);
    assert forall j :: 0 <= j < |pre| ==> (pre + op + post)[j] == pre[j];
    assert forall j :: 0 <= j < |op| ==> (pre + op + post)[|pre| + j] == op[j];
    assert forall j :: 0 <= j < |post| ==> (pre + op + post)[|pre| + |op| + j] == post[j];
    assert forall j :: 0 <= j < |blanks| ==> blanks[j] in blanks;
  }

  lemma FivePlaces(s: string, a: string, b: string, c: string, d: string, e: string)
    requires s == a + b + c + d + e
    ensures s[..|a|] == a && s[|a| + |b| + |c|..|a| + |b| + |c| + |d|] == d && s[|a| + |b| + |c| + |d|..] == e
    ensures forall j :: 0 <= j < |a| ==> s[j] == a[j]
    ensures forall j :: |a| <= j < |a| + |b| ==> s[j] == b[j - |a|]
    ensures forall j :: |a| + |b| <= j < |a| + |b| + |c| ==> s[j] == c[j - |a| - |b|]
    ensures forall j :: |a| + |b| + |c| <= j < |a| + |b| + |c| + |d| ==> s[j] == d[j - |a| - |b| - |c|]
    ensures forall j :: |a| + |b| + |c| + |d| <= j < |s| ==> s[j] == e[j - |a| - |b| - |c| - |d|]
  {
  }

  /** The text at `at` starts like a heredoc operator, and its operand is at `k`. */
  predicate OperandAt(s: string, at: nat, tabs: bool, k: nat) {
    var i := at + if tabs then 3 else 2;
    && i <= k < |s| && s[at] == s[at + 1] == '<' && (tabs <==> s[at + 2] == '-')
    && (forall j :: i <= j < k ==> s[j] == ' ' || s[j] == '\t') && s[k] != ' ' && s[k] != '\t'
  }

  lemma BareOperand(s: string, at: nat, tabs: bool, k: nat, e: nat)
    requires OperandAt(s, at, tabs, k) && k < e <= |s| && InName(s[k]) && !('0' <= s[k] <= '9')
    requires (forall j :: k <= j < e ==> InName(s[j])) && (e < |s| ==> !InName(s[e]))
    ensures OperatorAt(s, at) == Some(Operator(at, e, s[k..e], tabs))
  {
    hide IndexFrom, SkipBlanks, WordEnd;
    BlanksSkipped(s, at + if tabs then 3 else 2, k);
    WordRead(s, k, e);
  }

  lemma QuotedOperand(s: string, at: nat, tabs: bool, k: nat, e: nat)
    requires OperandAt(s, at, tabs, k) && k + 1 < e < |s| && (s[k] == '\'' || s[k] == '"') && s[e] == s[k]
    requires forall j :: k < j < e ==> s[j] != s[k] && s[j] != '\n'
    ensures OperatorAt(s, at) == Some(Operator(at, e + 1, s[k + 1..e], tabs))
  {
    hide IndexFrom, SkipBlanks, WordEnd;
    BlanksSkipped(s, at + if tabs then 3 else 2, k);
    FoundFrom(s, s[k], k + 1, e);
  }

  lemma OperandPlace(s: string, pre: string, tabs: bool, blanks: string, op: string, w: string, post: string)
    requires s == OperatorLine(pre, tabs, blanks, op, post) && '<' !in pre + op + post && Blank(blanks)
    requires Names(op, w, post) && '\n' !in w
    ensures var k := |pre| + (if tabs then 3 else 2) + |blanks|;
      && OperandAt(s, |pre|, tabs, k) && k + |op| <= |s|
      && (forall j :: k <= j < k + |op| ==> s[j] == op[j - k])
      && (k + |op| < |s| ==> post != "" && s[k + |op|] == post[0])
  {
    hide OperatorLine, Names, Blank;
    OperatorPlaces(s, pre, tabs, blanks, op, post);
    NamesByPlace(op, w, post);
    var k := |pre| + (if tabs then 3 else 2) + |blanks|;
    assert forall j :: k <= j < k + |op| ==> s[j] == s[k..k + |op|][j - k];
    assert k + |op| < |s| ==> s[k + |op|] == s[k + |op|..][0];
  }

  lemma OneOperator(s: string, pre: string, tabs: bool, blanks: string, op: string, w: string, post: string)
    requires s == OperatorLine(pre, tabs, blanks, op, post) && '<' !in pre + op + post && Blank(blanks)
    requires Names(op, w, post) && '\n' !in w
    ensures var k := |pre| + (if tabs then 3 else 2) + |blanks|;
      OperatorAt(s, |pre|) == Some(Operator(|pre|, k + |op|, w, tabs))
  {
    hide OperatorAt, OperatorLine, Names, Blank, OperandAt;
    OperandPlace(s, pre, tabs, blanks, op, w, post);
    NamesByPlace(op, w, post);
    var k := |pre| + (if tabs then 3 else 2) + |blanks|;
    var e := k + |op|;
    assert s[k] == op[0] && s[e - 1] == op[|op| - 1];
    if InName(op[0]) {
      BareOperand(s, |pre|, tabs, k, e);
      assert s[k..e] == w;
    } else {
      QuotedOperand(s, |pre|, tabs, k, e - 1);
      assert s[k + 1..e - 1] == w;
    }
  }

  lemma NamesByPlace(op: string, w: string, post: string)
    requires Names(op, w, post) && '\n' !in w
    ensures op != "" && op[0] != ' ' && op[0] != '\t' && op[0] != '-'
    ensures InName(op[0]) ==> op == w && !('0' <= op[0] <= '9') && (post == "" || !InName(post[0]))
    ensures InName(op[0]) ==> forall j :: 0 <= j < |op| ==> InName(op[j])
    ensures !InName(op[0]) ==>
      && (op[0] == '\'' || op[0] == '"') && |op| == |w| + 2 > 2 && op[|op| - 1] == op[0]
      && forall j :: 0 < j < |op| - 1 ==> op[j] == w[j - 1] && op[j] != op[0] && op[j] != '\n'
  {
    if op == w && InName(w[0]) {
      assert forall j :: 0 <= j < |op| ==> op[j] in w;
    }
    assert forall j :: 0 <= j < |w| ==> w[j] in w;
  }

  lemma NoTriple(s: string, at: nat)
    requires forall j :: 0 <= j < |s| && s[j] == '<' ==> j == at || j == at + 1
    ensures NoHereString(s, 0)
    ensures forall j :: 0 <= j <= |s| && j != at ==> OperatorAt(s, j).None?
  {
  }

  /** A line with one heredoc operator is scanned without it, and opens a heredoc that the named word closes. */
  lemma OperatorIsRead(line: string, pre: string, tabs: bool, blanks: string, op: string, w: string, post: string)
    requires line == OperatorLine(pre, tabs, blanks, op, post) && '<' !in pre + op + post && Blank(blanks)
    requires Names(op, w, post) && '\n' !in w
    ensures Scanned(line) == pre + post && Opened(line) == InDoc(w, tabs)
  {
    hide OperatorAt, HereStringAt, DropHereStrings, FindOperator;
    OperatorPlaces(line, pre, tabs, blanks, op, post);
    NoTriple(line, |pre|);
    DropShortens(line, 0);
    assert line[0..] == line;
    OneOperator(line, pre, tabs, blanks, op, w, post);
    FirstOperator(line, 0, |pre|);
    assert line[..|pre|] + line[|pre| + (if tabs then 3 else 2) + |blanks| + |op|..] == pre + post;
  }

  lemma {:induction false} TabsTrimmed(line: string, k: nat)
    requires k <= |line| && (forall i :: 0 <= i < k ==> line[i] == '\t') && (k < |line| ==> line[k] != '\t')
    ensures TrimTabs(line) == line[k..]
    decreases k
  {
    if k > 0 {
      assert forall i :: 0 <= i < k - 1 ==> line[1..][i] == line[i + 1];
      TabsTrimmed(line[1..], k - 1);
      assert line[1..][k - 1..] == line[k..];
    } else {
      assert line[0..] == line;
    }
  }

  lemma {:induction false} TabsOff(line: string) returns (k: nat)
    ensures k <= |line| && (forall i :: 0 <= i < k ==> line[i] == '\t') && (k < |line| ==> line[k] != '\t')
  {
    k := 0;
    if line != "" && line[0] == '\t' {
      k := TabsOff(line[1..]);
      k := k + 1;
      assert forall i :: 1 <= i < k ==> line[i] == line[1..][i - 1];
    }
  }

  /** The line is the word, behind tabs when the operator is the `<<-` form. */
  ghost predicate IsClosingLine(line: string, w: string, tabs: bool) {
    if !tabs then line == w
    else exists k :: 0 <= k <= |line| && line[k..] == w && forall i :: 0 <= i < k ==> line[i] == '\t'
  }

  lemma ClosesExactly(line: string, w: string, tabs: bool)
    requires tabs ==> w == "" || w[0] != '\t'
    ensures Closes(InDoc(w, tabs), line) <==> IsClosingLine(line, w, tabs)
  {
    hide TrimTabs;
    if tabs {
      var n := TabsOff(line);
      TabsTrimmed(line, n);
      if IsClosingLine(line, w, tabs) {
        var k :| 0 <= k <= |line| && line[k..] == w && forall i :: 0 <= i < k ==> line[i] == '\t';
        assert k < |line| ==> line[k] == w[0];
        assert k == n;
      }
    }
  }

  /** A heredoc, from the operator that names its delimiter to the first line that is the delimiter: the
      command keeps its line without the operator, the lines up to and with the closing one go, and what
      follows is stripped on its own. */
  lemma HeredocClosedByItsWord(pre: string, tabs: bool, blanks: string, op: string, w: string, post: string,
      body: seq<string>, close: string, after: seq<string>)
    requires '<' !in pre + op + post && Blank(blanks) && Names(op, w, post) && (tabs ==> w[0] != '\t')
    requires forall l :: l in body ==> !IsClosingLine(l, w, tabs)
    requires IsClosingLine(close, w, tabs)
    requires forall l :: l in [OperatorLine(pre, tabs, blanks, op, post)] + body + [close] + after ==> '\n' !in l
    ensures Strip(Join([OperatorLine(pre, tabs, blanks, op, post)] + body + [close] + after)) ==
      Join([pre + post] + StripFrom(NoDoc, after))
  {
    hide StripFrom, DocAfter, Join, Lines, OperatorLine, Names, IsClosingLine, Scanned, Opened;
    var line := OperatorLine(pre, tabs, blanks, op, post);
    var all := [line] + body + [close] + after;
    var doc := InDoc(w, tabs);
    LinesJoin(all);
    WordHasNoNewline(pre, tabs, blanks, op, w, post);
    OperatorIsRead(line, pre, tabs, blanks, op, w, post);
    BodyStaysOpen(w, tabs, body);
    ClosesExactly(close, w, tabs);
    assert all == [line] + (body + ([close] + after));
    OneLineStrips(NoDoc, line, body + ([close] + after));
    BodyKeepsDoc(doc, body);
    StripAppend(doc, body, [close] + after);
    OneLineStrips(doc, close, after);
    var rest := StripFrom(NoDoc, after);
    assert StripFrom(doc, [close] + after) == [] + rest == rest;
    assert StripFrom(doc, body + ([close] + after)) == [] + rest == rest;
  }

  /** A quoted delimiter, two lines of body that look like commands, and a command behind them. */
  lemma QuotedHeredocExample()
    ensures Strip(Join(["tee a <<'EOF' >b", "rm c", "EOF ", "EOF", "git push"])) == Join(["tee a  >b", "git push"])
  {
    hide Strip, StripFrom, Join;
    assert OperatorLine("tee a ", false, "", "'EOF'", " >b") == "tee a <<'EOF' >b";
    assert !IsClosingLine("rm c", "EOF", false) && !IsClosingLine("EOF ", "EOF", false);
    var all := ["tee a <<'EOF' >b"] + ["rm c", "EOF "] + ["EOF"] + ["git push"];
    assert all == ["tee a <<'EOF' >b", "rm c", "EOF ", "EOF", "git push"];
    HeredocClosedByItsWord("tee a ", false, "", "'EOF'", "EOF", " >b", ["rm c", "EOF "], "EOF", ["git push"]);
    NoAngleIsPlain("git push");
    PlainLineStays("git push");
    assert "tee a " + " >b" == "tee a  >b";
    assert ["tee a  >b"] + ["git push"] == ["tee a  >b", "git push"];
  }

  lemma PlainLineStays(line: string)
    requires Plain(line)
    ensures StripFrom(NoDoc, [line]) == [line]
  {
    hide Scanned, Opened, Plain;
    ScannedPlain(line);
    OneLineStrips(NoDoc, line, []);
    assert [line] + [] == [line] && StripFrom(Next(NoDoc, line), []) == [];
  }

  /** And when no line is the delimiter everything after the operator line is its body. */
  lemma HeredocRunsToTheEnd(pre: string, tabs: bool, blanks: string, op: string, w: string, post: string,
      body: seq<string>)
    requires '<' !in pre + op + post && Blank(blanks) && Names(op, w, post) && (tabs ==> w[0] != '\t')
    requires forall l :: l in body ==> !IsClosingLine(l, w, tabs)
    requires forall l :: l in [OperatorLine(pre, tabs, blanks, op, post)] + body ==> '\n' !in l
    ensures Strip(Join([OperatorLine(pre, tabs, blanks, op, post)] + body)) == pre + post
  {
    hide StripFrom, DocAfter, Join, Lines, OperatorLine, Names, IsClosingLine, Scanned, Opened;
    var line := OperatorLine(pre, tabs, blanks, op, post);
    LinesJoin([line] + body);
    WordHasNoNewline(pre, tabs, blanks, op, w, post);
    OperatorIsRead(line, pre, tabs, blanks, op, w, post);
    BodyStaysOpen(w, tabs, body);
    OneLineStrips(NoDoc, line, body);
    BodyKeepsDoc(InDoc(w, tabs), body);
    assert StripFrom(NoDoc, [line] + body) == [pre + post] + [] == [pre + post];
    JoinOne(pre + post);
  }

  lemma BodyStaysOpen(w: string, tabs: bool, body: seq<string>)
    requires tabs ==> w == "" || w[0] != '\t'
    requires forall l :: l in body ==> !IsClosingLine(l, w, tabs)
    ensures forall l :: l in body ==> !Closes(InDoc(w, tabs), l)
  {
    hide Closes, IsClosingLine;
    forall l | l in body ensures !Closes(InDoc(w, tabs), l) {
      ClosesExactly(l, w, tabs);
    }
  }

  lemma WordHasNoNewline(pre: string, tabs: bool, blanks: string, op: string, w: string, post: string)
    requires '\n' !in OperatorLine(pre, tabs, blanks, op, post) && Names(op, w, post)
    ensures '\n' !in w && w != ""
  {
    var lead := pre + "<<" + (if tabs then "-" else "") + blanks;
    assert forall j :: 0 <= j < |op| ==> (lead + op + post)[|lead| + j] == op[j];
    if op != w {
      assert forall j :: 0 <= j < |w| ==> op[j + 1] == w[j];
    }
  }

  lemma OneLineStrips(doc: Doc, line: string, rest: seq<string>)
    ensures StripFrom(doc, [line] + rest)
      == (if doc.NoDoc? then [Scanned(line)] else []) + StripFrom(Next(doc, line), rest)
    ensures doc.NoDoc? ==> Next(doc, line) == Opened(line)
    ensures doc.InDoc? && Closes(doc, line) ==> Next(doc, line) == NoDoc
  {
    hide Scanned, Opened, Closes;
    assert ([line] + rest)[1..] == rest;
  }

  // ----- What is no operator -------------------------------------------------------------------

  /** Nothing a heredoc operator could name: no letter, no `_`, and no quoted word. */
  predicate NamesNothing(rest: string) {
    rest == "" ||
    (&& !('a' <= rest[0] <= 'z' || 'A' <= rest[0] <= 'Z' || rest[0] == '_') && rest[0] != ' ' && rest[0] != '\t'
     && (rest[0] == '\'' || rest[0] == '"' ==> rest[0] !in rest[1..] || rest[1] == rest[0]))
  }

  lemma NoOperatorHere(s: string, at: nat, tabs: bool, k: nat)
    requires at + (if tabs then 3 else 2) <= k <= |s| && NamesNothing(s[k..])
    requires tabs <==> at + 2 < |s| && s[at + 2] == '-'
    requires forall j :: at + (if tabs then 3 else 2) <= j < k ==> s[j] == ' ' || s[j] == '\t'
    ensures OperatorAt(s, at).None?
  {
    hide IndexFrom, SkipBlanks, WordEnd;
    var rest := s[k..];
    assert rest != "" ==> rest[0] == s[k];
    BlanksSkipped(s, at + if tabs then 3 else 2, k);
    if rest != "" && (s[k] == '\'' || s[k] == '"') {
      forall j | k + 1 <= j < |s| && s[k] !in rest[1..] ensures s[j] != s[k] {
        assert s[j] == rest[1..][j - k - 1];
      }
      if s[k] in rest[1..] {
        FoundFrom(s, s[k], k + 1, k + 1);
      }
    }
  }

  lemma OneLineCommand(line: string)
    requires '\n' !in line
    ensures Strip(line) == Scanned(line)
  {
    hide Scanned;
    assert Lines(line) == [line] by {
      JoinOne(line);
      LinesJoin([line]);
    }
    OneLineStrips(NoDoc, line, []);
    assert StripFrom(Next(NoDoc, line), []) == [] && [line] + [] == [line];
    JoinOne(Scanned(line));
  }

  /** A `<<` that names nothing, an arithmetic shift for one, is left where it is. */
  lemma NoWordNoHeredoc(pre: string, tabs: bool, blanks: string, rest: string)
    requires '<' !in pre + rest && Blank(blanks) && NamesNothing(rest)
    requires !tabs && blanks == "" && rest != "" ==> rest[0] != '-'
    requires '\n' !in OperatorLine(pre, tabs, blanks, rest, "")
    ensures Strip(OperatorLine(pre, tabs, blanks, rest, "")) == OperatorLine(pre, tabs, blanks, rest, "")
  {
    hide Scanned, OperatorAt, NamesNothing, HereStringAt, Strip;
    var line := OperatorLine(pre, tabs, blanks, rest, "");
    assert pre + rest + "" == pre + rest;
    OperatorPlaces(line, pre, tabs, blanks, rest, "");
    NoTriple(line, |pre|);
    var i := |pre| + if tabs then 3 else 2;
    var k := i + |blanks|;
    assert line[k..] == rest;
    if !tabs && i < |line| {
      assert blanks != "" ==> line[i] == ' ' || line[i] == '\t';
      assert blanks == "" ==> line[i] == rest[0];
    }
    NoOperatorHere(line, |pre|, tabs, k);
    ScannedPlain(line);
    OneLineCommand(line);
  }

  /** An operand: in quotes, or a run of bytes up to a blank or one of `;`, `|`, `&`, `<`, `>`. */
  predicate IsOperand(operand: string, x: string, post: string) {
    || (operand == "'" + x + "'" && '\'' !in x)
    || (operand == "\"" + x + "\"" && '"' !in x)
    || (&& operand == x != "" && x[0] != '\'' && x[0] != '"' && (forall c :: c in x ==> c !in " \t;|&<>")
        && (post == "" || post[0] in " \t;|&<>"))
  }

  lemma {:induction false} BareRunRead(s: string, i: nat, e: nat)
    requires i <= e <= |s| && (forall j :: i <= j < e ==> s[j] !in " \t;|&<>") && (e < |s| ==> s[e] in " \t;|&<>")
    ensures BareEnd(s, i) == e
    decreases e - i
  {
    if i < e {
      BareRunRead(s, i + 1, e);
    }
  }

  lemma QuotedRunEnds(s: string, k: nat, e: nat)
    requires k + 1 < e <= |s| && (s[k] == '\'' || s[k] == '"') && s[e - 1] == s[k]
    requires forall j :: k < j < e - 1 ==> s[j] != s[k]
    ensures OperandEnd(s, k) == Some(e)
  {
    hide IndexFrom, BareEnd;
    FoundFrom(s, s[k], k + 1, e - 1);
  }

  lemma BareRunEnds(s: string, k: nat, e: nat)
    requires k < e <= |s| && s[k] != '\'' && s[k] != '"'
    requires (forall j :: k <= j < e ==> s[j] !in " \t;|&<>") && (e < |s| ==> s[e] in " \t;|&<>")
    ensures OperandEnd(s, k) == Some(e) && s[k] != ' ' && s[k] != '\t' && s[k] != '>'
  {
    hide BareEnd;
    BareRunRead(s, k, e);
  }

  lemma OperandRead(s: string, k: nat, operand: string, x: string, post: string)
    requires k <= |s| && s[k..] == operand + post && IsOperand(operand, x, post)
    ensures OperandEnd(s, k) == Some(k + |operand|) && s[k] != ' ' && s[k] != '\t' && s[k] != '>'
    ensures s[k..k + |operand|] == operand && s[k + |operand|..] == post
  {
    hide OperandEnd;
    var e := k + |operand|;
    assert forall j :: k <= j < e ==> s[j] == s[k..][j - k] == operand[j - k];
    assert e < |s| ==> s[e] == s[k..][|operand|] == post[0];
    if operand == x && x[0] != '\'' && x[0] != '"' {
      assert forall j :: k <= j < e ==> s[j] in x;
      BareRunEnds(s, k, e);
    } else {
      assert forall j :: 0 <= j < |x| ==> operand[j + 1] == x[j] && x[j] in x;
      QuotedRunEnds(s, k, e);
    }
  }

  lemma {:induction false} DropUpTo(s: string, i: nat, k: nat)
    requires i <= k <= |s| && forall j :: i <= j < k ==> HereStringAt(s, j).None?
    ensures DropHereStrings(s, i) == s[i..k] + DropHereStrings(s, k)
    decreases k - i
  {
    hide HereStringAt;
    if i < k {
      DropUpTo(s, i + 1, k);
      assert s[i..k] == [s[i]] + s[i + 1..k];
    } else {
      assert s[i..k] == [];
    }
  }

  lemma NoAngleNoHereString(s: string, i: nat)
    requires i <= |s| && forall j :: i <= j < |s| ==> s[j] != '<'
    ensures NoHereString(s, i)
  {
  }

  lemma NoAngleIsPlain(line: string)
    requires '<' !in line
    ensures Plain(line)
  {
    NoAngleNoHereString(line, 0);
  }

  lemma HereStringRead(line: string, pre: string, blanks: string, operand: string, x: string, post: string)
    requires line == pre + "<<<" + blanks + operand + post
    requires '<' !in pre + operand + post && Blank(blanks) && IsOperand(operand, x, post)
    ensures DropHereStrings(line, 0) == pre + post
  {
    hide DropHereStrings, OperandEnd, IsOperand, SkipBlanks;
    var k := |pre| + 3 + |blanks|;
    FivePlaces(line, pre, "<<<", blanks, operand, post);
    assert line[k..] == operand + post;
    OperandRead(line, k, operand, x, post);
    assert forall j :: 0 <= j < |blanks| ==> blanks[j] in blanks;
    BlanksSkipped(line, |pre| + 3, k);
    NotInParts('<', pre, operand, post);
    assert HereStringAt(line, |pre|) == Some(k + |operand|);
    assert forall j :: 0 <= j < |pre| ==> HereStringAt(line, j).None?;
    hide HereStringAt;
    DropUpTo(line, 0, |pre|);
    NoAngleNoHereString(line, k + |operand|);
    DropShortens(line, k + |operand|);
    DropOne(line, |pre|);
    assert line[0..|pre|] == pre;
  }

  lemma DropOne(s: string, i: nat)
    requires i <= |s| && HereStringAt(s, i).Some?
    ensures DropHereStrings(s, i) == DropHereStrings(s, HereStringAt(s, i).value)
  {
    hide HereStringAt;
  }

  /** A here-string goes with its one operand, and the rest of the line stays. */
  lemma HereStringIsDropped(pre: string, blanks: string, operand: string, x: string, post: string)
    requires '<' !in pre + operand + post && Blank(blanks) && IsOperand(operand, x, post)
    requires '\n' !in pre + "<<<" + blanks + operand + post
    ensures Strip(pre + "<<<" + blanks + operand + post) == pre + post
  {
    hide DropHereStrings, FindOperator, IsOperand, Strip, Plain;
    var line := pre + "<<<" + blanks + operand + post;
    HereStringRead(line, pre, blanks, operand, x, post);
    NotInParts('<', pre, operand, post);
    NoAngleIsPlain(pre + post);
    PlainHasNoOperator(pre + post);
    OneLineCommand(line);
  }

  lemma NotInParts(c: char, a: string, b: string, d: string)
    requires c !in a + b + d
    ensures c !in a && c !in b && c !in d && c !in a + d
  {
    var s := a + b + d;
    assert forall j :: 0 <= j < |a| ==> s[j] == a[j];
    assert forall j :: 0 <= j < |b| ==> s[|a| + j] == b[j];
    assert forall j :: 0 <= j < |d| ==> s[|a| + |b| + j] == d[j];
  }

  lemma PlainHasNoOperator(line: string)
    requires Plain(line)
    ensures FindOperator(line, 0).None?
  {
    FindsFirst(line, 0);
  }
}
