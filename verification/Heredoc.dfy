/** Stripping heredoc bodies and here-string operands from a command before it is scanned
    (internal/cli/cmd_hook_commitgate.go). */
module Heredoc {
  import opened Text

  // ----- The two patterns ----------------------------------------------------------------------

  predicate IsBlank(c: char) {
    c == ' ' || c == '\t'
  }

  /** The first non-blank position from `i` on: `[ \t]*`, greedy. */
  function SkipBlanks(s: string, i: nat): (j: nat)
    requires i <= |s|
    ensures i <= j <= |s|
    decreases |s| - i
  {
    if i < |s| && IsBlank(s[i]) then SkipBlanks(s, i + 1) else i
  }

  /** A byte of a bare token: `[^ \t;|&<>]`. */
  predicate IsBare(c: char) {
    !IsBlank(c) && c != ';' && c != '|' && c != '&' && c != '<' && c != '>'
  }

  function BareEnd(s: string, i: nat): (j: nat)
    requires i <= |s|
    ensures i <= j <= |s|
    decreases |s| - i
  {
    if i < |s| && IsBare(s[i]) then BareEnd(s, i + 1) else i
  }

  /** The end of the operand at `i`: a quoted span if its quote closes, else a bare token. */
  function OperandEnd(s: string, i: nat): (e: Option<nat>)
    requires i <= |s|
    ensures e.Some? ==> i < e.value <= |s|
  {
    var close := if i < |s| && (s[i] == '"' || s[i] == '\'') then IndexFrom(s, s[i], i + 1) else -1;
    if close >= 0 then Some(close + 1)
    else if BareEnd(s, i) > i then Some(BareEnd(s, i)) else None
  }

  /** A here-string `<<<` with its operand at `i`, as its end. */
  function HereStringAt(s: string, i: nat): (e: Option<nat>)
    requires i <= |s|
    ensures e.Some? ==> i < e.value <= |s|
  {
    if i + 3 <= |s| && s[i] == '<' && s[i + 1] == '<' && s[i + 2] == '<'
    then OperandEnd(s, SkipBlanks(s, i + 3)) else None
  }

  /** hereStringRe.ReplaceAllString(s, "") on the text from `i` on. */
  function DropHereStrings(s: string, i: nat): string
    requires i <= |s|
    decreases |s| - i
  {
    var e := HereStringAt(s, i);
    if e.Some? then DropHereStrings(s, e.value)
    else if i == |s| then "" else [s[i]] + DropHereStrings(s, i + 1)
  }

  predicate IsWordStart(c: char) {
    'a' <= c <= 'z' || 'A' <= c <= 'Z' || c == '_'
  }

  function WordEnd(s: string, i: nat): (j: nat)
    requires i <= |s|
    ensures i <= j <= |s|
    decreases |s| - i
  {
    if i < |s| && (IsWordStart(s[i]) || '0' <= s[i] <= '9') then WordEnd(s, i + 1) else i
  }

  /** A heredoc operator s[lo..hi], the delimiter it names and whether it is the `<<-` form. */
  datatype Operator = Operator(lo: nat, hi: nat, delim: string, tabs: bool)

  /** heredocOpRe matched at `i`. */
  function OperatorAt(s: string, i: nat): (op: Option<Operator>)
    requires i <= |s|
    ensures op.Some? ==> op.value.lo == i < op.value.hi <= |s|
  {
    if !(i + 2 <= |s| && s[i] == '<' && s[i + 1] == '<') then None
    else
      var tabs := i + 2 < |s| && s[i + 2] == '-';
      var k := SkipBlanks(s, if tabs then i + 3 else i + 2);
      if k < |s| && (s[k] == '"' || s[k] == '\'') then
        var close := IndexFrom(s, s[k], k + 1);
        if close > k + 1 && '\n' !in s[k + 1..close] then Some(Operator(i, close + 1, s[k + 1..close], tabs)) else None
      else if k < |s| && IsWordStart(s[k]) then Some(Operator(i, WordEnd(s, k), s[k..WordEnd(s, k)], tabs))
      else None
  }

  /** The first operator from `i` on. */
  function FindOperator(s: string, i: nat): (op: Option<Operator>)
    requires i <= |s|
    ensures op.Some? ==> i <= op.value.lo < op.value.hi <= |s|
    decreases |s| - i
  {
    var op := OperatorAt(s, i);
    if op.Some? then op else if i == |s| then None else FindOperator(s, i + 1)
  }

  // ----- The line automaton --------------------------------------------------------------------

  /** Between commands, or in the body of a heredoc. */
  datatype Doc = NoDoc | InDoc(delim: string, tabs: bool)

  function TrimTabs(line: string): string {
    if line != "" && line[0] == '\t' then TrimTabs(line[1..]) else line
  }

  predicate Closes(doc: Doc, line: string)
    requires doc.InDoc?
  {
    (if doc.tabs then TrimTabs(line) else line) == doc.delim
  }

  /** What a command line is scanned as. */
  function Scanned(line: string): string {
    var l := DropHereStrings(line, 0);
    var op := FindOperator(l, 0);
    if op.None? then l else l[..op.value.lo] + l[op.value.hi..]
  }

  /** The heredoc a command line opens. */
  function Opened(line: string): Doc {
    var op := FindOperator(DropHereStrings(line, 0), 0);
    if op.None? then NoDoc else InDoc(op.value.delim, op.value.tabs)
  }

  function Next(doc: Doc, line: string): Doc {
    if doc.NoDoc? then Opened(line) else if Closes(doc, line) then NoDoc else doc
  }

  function DocAfter(doc: Doc, lines: seq<string>): Doc
    decreases |lines|
  {
    if lines == [] then doc else DocAfter(Next(doc, lines[0]), lines[1..])
  }

  function StripFrom(doc: Doc, lines: seq<string>): seq<string>
    decreases |lines|
  {
    if lines == [] then []
    else (if doc.NoDoc? then [Scanned(lines[0])] else []) + StripFrom(Next(doc, lines[0]), lines[1..])
  }

  function Strip(command: string): string {
    Join(StripFrom(NoDoc, Lines(command)))
  }

  lemma {:induction false} StripAppend(doc: Doc, a: seq<string>, b: seq<string>)
    ensures StripFrom(doc, a + b) == StripFrom(doc, a) + StripFrom(DocAfter(doc, a), b)
    ensures DocAfter(doc, a + b) == DocAfter(DocAfter(doc, a), b)
    decreases |a|
  {
    hide Scanned, Next;
    if a == [] {
      assert a + b == b;
    } else {
      assert (a + b)[0] == a[0] && (a + b)[1..] == a[1..] + b;
      var first := if doc.NoDoc? then [Scanned(a[0])] else [];
      var more := StripFrom(Next(doc, a[0]), a[1..]);
      StripAppend(Next(doc, a[0]), a[1..], b);
      assert first + (more + StripFrom(DocAfter(doc, a), b)) == (first + more) + StripFrom(DocAfter(doc, a), b);
    }
  }

  /** Every line is dealt with once, in order: emitted, scanned, when it is a command line; dropped
      when it belongs to a heredoc body or closes one. */
  lemma EveryLineOnce(lines: seq<string>, i: nat)
    requires i < |lines|
    ensures var doc := DocAfter(NoDoc, lines[..i]);
      && StripFrom(NoDoc, lines[..i + 1])
      == StripFrom(NoDoc, lines[..i]) + (if doc.NoDoc? then [Scanned(lines[i])] else [])
      && DocAfter(NoDoc, lines[..i + 1]) == Next(doc, lines[i])
  {
    hide Scanned, Next;
    assert lines[..i + 1] == lines[..i] + [lines[i]];
    StripAppend(NoDoc, lines[..i], [lines[i]]);
    var doc := DocAfter(NoDoc, lines[..i]);
    assert [lines[i]][1..] == [];
    assert StripFrom(doc, [lines[i]]) == (if doc.NoDoc? then [Scanned(lines[i])] else []) + [];
  }

  /** stripHeredocs: the two nested index loops. */
  method StripHeredocs(command: string) returns (stripped: string)
    ensures stripped == Strip(command)
  {
    hide StripFrom, DocAfter, Scanned, Opened, Closes, DropHereStrings, FindOperator;
    var lines := Lines(command);
    var out: seq<string> := [];
    var i := 0;
    NothingYet(lines);
    while i < |lines|
      invariant 0 <= i <= |lines|
      invariant out == StripFrom(NoDoc, lines[..i])
      invariant i < |lines| ==> DocAfter(NoDoc, lines[..i]) == NoDoc
      decreases |lines| - i
    {
      var line := DropHereStrings(lines[i], 0);
      var op := FindOperator(line, 0);
      EveryLineOnce(lines, i);
      ScannedBy(lines[i]);
      if op.None? {
        out := out + [line];
        i := i + 1;
      } else {
        out := out + [line[..op.value.lo] + line[op.value.hi..]];
        ghost var doc := InDoc(op.value.delim, op.value.tabs);
        i := i + 1;
        var closed := false;
        while i < |lines| && !closed
          invariant 0 <= i <= |lines|
          invariant out == StripFrom(NoDoc, lines[..i])
          invariant DocAfter(NoDoc, lines[..i]) == if closed then NoDoc else doc
          decreases |lines| - i
        {
          var body := lines[i];
          var cmp := if op.value.tabs then TrimTabs(body) else body;
          EveryLineOnce(lines, i);
          ClosesBy(doc, body);
          i := i + 1;
          if cmp == op.value.delim {
            closed := true;  // break
          }
        }
      }
    }
    assert lines[..|lines|] == lines;
    stripped := Join(out);
  }

  lemma NothingYet(lines: seq<string>)
    ensures StripFrom(NoDoc, lines[..0]) == [] && DocAfter(NoDoc, lines[..0]) == NoDoc
  {
  }

  lemma ScannedBy(line: string)
    ensures var l := DropHereStrings(line, 0);
      var op := FindOperator(l, 0);
      && Scanned(line) == (if op.None? then l else l[..op.value.lo] + l[op.value.hi..])
      && Opened(line) == (if op.None? then NoDoc else InDoc(op.value.delim, op.value.tabs))
  {
  }

  lemma ClosesBy(doc: Doc, line: string)
    requires doc.InDoc?
    ensures Closes(doc, line) <==> (if doc.tabs then TrimTabs(line) else line) == doc.delim
  {
  }

  // ----- Heredoc bodies are data ---------------------------------------------------------------

  /** The command with every heredoc body line deleted: operator lines and closing lines stay. */
  function Erase(doc: Doc, lines: seq<string>): seq<string>
    decreases |lines|
  {
    if lines == [] then []
    else (if doc.InDoc? && !Closes(doc, lines[0]) then [] else [lines[0]]) + Erase(Next(doc, lines[0]), lines[1..])
  }

  lemma {:induction false} EraseKeepsStrip(doc: Doc, lines: seq<string>)
    ensures StripFrom(doc, Erase(doc, lines)) == StripFrom(doc, lines)
    decreases |lines|
  {
    hide Scanned, Opened, Closes;
    if lines != [] {
      var next, rest := Next(doc, lines[0]), lines[1..];
      EraseKeepsStrip(next, rest);
      if doc.InDoc? && !Closes(doc, lines[0]) {
        assert Erase(doc, lines) == Erase(next, rest);
        assert StripFrom(doc, lines) == StripFrom(next, rest);
      } else {
        assert Erase(doc, lines)[1..] == Erase(next, rest);
      }
    }
  }

  /** Two commands with the same lines once heredoc bodies are deleted are scanned as the same text. */
  lemma HeredocBodiesAreData(a: string, b: string)
    requires Erase(NoDoc, Lines(a)) == Erase(NoDoc, Lines(b))
    ensures Strip(a) == Strip(b)
  {
    hide StripFrom, Erase, Lines;
    EraseKeepsStrip(NoDoc, Lines(a));
    EraseKeepsStrip(NoDoc, Lines(b));
  }

  lemma {:induction false} BodyKeepsDoc(doc: Doc, body: seq<string>)
    requires doc.InDoc? && forall l :: l in body ==> !Closes(doc, l)
    ensures StripFrom(doc, body) == [] && DocAfter(doc, body) == doc
  {
    hide Closes;
    if body != [] {
      assert body[0] in body && forall l :: l in body[1..] ==> l in body;
      BodyKeepsDoc(doc, body[1..]);
    }
  }

  /** Replacing the body of any open heredoc, by any lines that do not close it, changes nothing. */
  lemma BodyLinesDoNotMatter(before: seq<string>, body: seq<string>, other: seq<string>, after: seq<string>)
    requires var doc := DocAfter(NoDoc, before);
      doc.InDoc? && forall l :: l in body + other ==> !Closes(doc, l)
    ensures StripFrom(NoDoc, before + body + after) == StripFrom(NoDoc, before + other + after)
  {
    hide StripFrom, DocAfter, Closes;
    var doc := DocAfter(NoDoc, before);
    assert forall l :: l in body ==> l in body + other;
    assert forall l :: l in other ==> l in body + other;
    BodyKeepsDoc(doc, body);
    BodyKeepsDoc(doc, other);
    StripAppend(NoDoc, before, body);
    StripAppend(NoDoc, before, other);
    StripAppend(NoDoc, before + body, after);
    StripAppend(NoDoc, before + other, after);
  }

  // ----- Commands left alone -------------------------------------------------------------------

  /** No here-string and no heredoc operator anywhere in the line. */
  ghost predicate Plain(line: string) {
    && NoHereString(line, 0)
    && (forall i :: 0 <= i <= |line| ==> OperatorAt(line, i).None?)
  }

  /** No here-string from `i` on. */
  ghost predicate NoHereString(s: string, i: nat)
    requires i <= |s|
  {
    forall k :: i <= k <= |s| ==> HereStringAt(s, k).None?
  }

  lemma NoHereStringStep(s: string, i: nat)
    requires i < |s|
    ensures NoHereString(s, i) <==> HereStringAt(s, i).None? && NoHereString(s, i + 1)
  {
    hide HereStringAt;
  }

  lemma {:induction false} DropShortens(s: string, i: nat)
    requires i <= |s|
    ensures |DropHereStrings(s, i)| <= |s| - i
    ensures NoHereString(s, i) ==> DropHereStrings(s, i) == s[i..]
    ensures !NoHereString(s, i) ==> |DropHereStrings(s, i)| < |s| - i
    decreases |s| - i
  {
    hide HereStringAt, NoHereString;
    var e := HereStringAt(s, i);
    if i < |s| {
      NoHereStringStep(s, i);
      assert s[i..] == [s[i]] + s[i + 1..];
    } else {
      assert NoHereString(s, i) <==> e.None? by { NoHereStringAtEnd(s); }
    }
    if e.Some? {
      DropShortens(s, e.value);
    } else if i < |s| {
      DropShortens(s, i + 1);
    }
  }

  lemma NoHereStringAtEnd(s: string)
    ensures NoHereString(s, |s|) <==> HereStringAt(s, |s|).None?
  {
    hide HereStringAt;
  }

  lemma {:induction false} FindsFirst(s: string, i: nat)
    requires i <= |s|
    ensures FindOperator(s, i).None? <==> forall k :: i <= k <= |s| ==> OperatorAt(s, k).None?
    decreases |s| - i
  {
    hide OperatorAt;
    if OperatorAt(s, i).None? && i < |s| {
      FindsFirst(s, i + 1);
    }
  }

  lemma ScannedPlain(line: string)
    ensures |Scanned(line)| <= |line|
    ensures Plain(line) ==> Scanned(line) == line && Opened(line) == NoDoc
    ensures !Plain(line) ==> |Scanned(line)| < |line|
  {
    hide DropHereStrings, FindOperator, HereStringAt, OperatorAt;
    DropShortens(line, 0);
    var l := DropHereStrings(line, 0);
    FindsFirst(l, 0);
    assert line[0..] == line;
    if !Plain(line) && l == line {
      assert exists k :: 0 <= k <= |line| && OperatorAt(line, k).Some?;
    }
  }

  /** The bytes of the lines, one more for each line's newline. */
  function Weight(lines: seq<string>): nat {
    if lines == [] then 0 else |lines[0]| + 1 + Weight(lines[1..])
  }

  lemma {:induction false} JoinWeight(lines: seq<string>)
    requires lines != []
    ensures |Join(lines)| + 1 == Weight(lines)
  {
    if |lines| > 1 {
      JoinWeight(lines[1..]);
    }
  }

  lemma {:induction false} StripWeight(doc: Doc, lines: seq<string>)
    ensures Weight(StripFrom(doc, lines)) <= Weight(lines)
    ensures (doc.InDoc? && lines != []) || (exists l :: l in lines && !Plain(l)) ==>
      Weight(StripFrom(doc, lines)) < Weight(lines)
    ensures doc.NoDoc? && (forall l :: l in lines ==> Plain(l)) ==> StripFrom(doc, lines) == lines
    decreases |lines|
  {
    hide Scanned, Opened, Closes, Plain;
    if lines != [] {
      ScannedPlain(lines[0]);
      StripWeight(Next(doc, lines[0]), lines[1..]);
      var s, rest := StripFrom(doc, lines), StripFrom(Next(doc, lines[0]), lines[1..]);
      assert forall l :: l in lines <==> l == lines[0] || l in lines[1..];
      if doc.NoDoc? {
        assert s[0] == Scanned(lines[0]) && s[1..] == rest;
      } else {
        assert s == rest;
      }
    }
  }

  /** A command comes through unchanged exactly when no line of it has a heredoc operator or a
      here-string. */
  lemma StripIsIdentityExactly(command: string)
    ensures Strip(command) == command <==> forall l :: l in Lines(command) ==> Plain(l)
  {
    hide StripFrom, Plain, Lines, Join;
    var lines := Lines(command);
    StripWeight(NoDoc, lines);
    JoinLines(command);
    JoinWeight(lines);
    FirstLineStays(lines);
    JoinWeight(StripFrom(NoDoc, lines));
  }

  lemma FirstLineStays(lines: seq<string>)
    requires lines != []
    ensures StripFrom(NoDoc, lines) != []
  {
  }

  /** In particular one without `<<`. */
  lemma NoOperatorNoChange(command: string)
    requires forall i :: 0 <= i < |command| - 1 ==> !(command[i] == '<' && command[i + 1] == '<')
    ensures Strip(command) == command
  {
    hide Strip;
    StripIsIdentityExactly(command);
    forall l | l in Lines(command) ensures Plain(l) {
      var o := LineOffset(command, l);
      forall i | 0 <= i < |l| - 1 ensures !(l[i] == '<' && l[i + 1] == '<') {
        assert l[i] == command[o + i] && l[i + 1] == command[o + i + 1];
      }
    }
  }

  /** A line that is not the first is a line of the rest. */
  lemma LaterLine(s: string, l: string)
    requires l in Lines(s) && (IndexByte(s, '\n') >= 0 ==> l != s[..IndexByte(s, '\n')])
    ensures IndexByte(s, '\n') < 0 ==> l == s
    ensures IndexByte(s, '\n') >= 0 ==> l in Lines(s[IndexByte(s, '\n') + 1..])
  {
    hide IndexByte;
  }

  lemma {:induction false} LineOffset(s: string, l: string) returns (o: nat)
    requires l in Lines(s)
    ensures o + |l| <= |s| && s[o..o + |l|] == l
  {
    hide Lines, IndexFrom;
    var i := IndexByte(s, '\n');
    if i >= 0 && l == s[..i] {
      o := 0;
    } else {
      LaterLine(s, l);
      if i < 0 {
        o := 0;
      } else {
        var k := LineOffset(s[i + 1..], l);
        o := i + 1 + k;
        assert s[i + 1..] == s[i + 1..i + 1 + (|s| - i - 1)];
        SliceOfSlice(s, i + 1, |s| - i - 1, k, k + |l|);
      }
    }
  }
}
