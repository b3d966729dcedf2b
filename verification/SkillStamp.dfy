/** The identity stamp of a materialised SKILL.md: the printer that injects it after the frontmatter
    and the position-anchored parser that takes it out again (internal/cli/cmd_skill_sync.go). */
module SkillStamp {
  import opened Text

  const STAMP_BEGIN := "<!-- satellites-sync:begin"
  const STAMP_END := "satellites-sync:end -->"

  datatype Stamp = Stamp(documentId: string, version: int, hash: string, publisher: string)

  const NO_STAMP := Stamp("", 0, "", "")

  /** One substrate row: identity plus the authored body. */
  datatype Row = Row(name: string, documentId: string, version: int, body: string, publisher: string)

  /** The foreign code the printer and the parser call: SHA-256 in hex, json.Marshal and
      json.Unmarshal of a stamp. */
  datatype Platform = Platform(hash: string -> string, encode: Stamp -> string, decode: string -> Option<Stamp>)

  /** A JSON object on one line.  Go's json.Marshal escapes '>' inside strings as \u003e. */
  predicate JsonObjectLine(e: string) {
    |e| >= 2 && e[0] == '{' && e[|e| - 1] == '}' && '>' !in e && '\n' !in e
  }

  /** What the codec is trusted with at a stamp: decoding inverts encoding, and the encoding is a JSON
      object line.  Go's codec is lawful at the stamps whose strings are valid UTF-8. */
  predicate LawfulAt(p: Platform, st: Stamp) {
    p.decode(p.encode(st)) == Some(st) && JsonObjectLine(p.encode(st))
  }

  function StampBlock(p: Platform, st: Stamp): string {
    STAMP_BEGIN + " " + p.encode(st) + " " + STAMP_END + "\n"
  }

  // ----- Frontmatter ---------------------------------------------------------------------------

  /** strings.TrimRight(line, "\r"). */
  function TrimCR(line: string): (r: string)
    ensures r <= line
    ensures line != "" && line[|line| - 1] != '\r' ==> r == line
  {
    if line != "" && line[|line| - 1] == '\r' then TrimCR(line[..|line| - 1]) else line
  }

  /** s[a..b] is `---`, possibly followed by carriage returns. */
  predicate Dashes(s: string, a: nat, b: nat)
    requires a <= b <= |s|
  {
    && b - a >= 3 && s[a] == '-' && s[a + 1] == '-' && s[a + 2] == '-'
    && forall i :: a + 3 <= i < b ==> s[i] == '\r'
  }

  /** The test the loop makes of a line. */
  predicate IsClosing(line: string) {
    TrimCR(line) == "---"
  }

  lemma {:induction false} TrimCRDashes(line: string)
    ensures TrimCR(line) == "---" <==> Dashes(line, 0, |line|)
  {
    if line != "" && line[|line| - 1] == '\r' {
      TrimCRDashes(line[..|line| - 1]);
    }
  }

  predicate OpensFrontmatter(raw: string) {
    HasPrefix(raw, "---\n") || HasPrefix(raw, "---\r\n")
  }

  /** Where the line that starts at `from` stops, its newline not counted. */
  function LineStop(raw: string, from: nat): (e: nat)
    requires from <= |raw|
    ensures from <= e <= |raw|
    ensures e < |raw| ==> raw[e] == '\n'
    ensures forall j :: from <= j < e ==> raw[j] != '\n'
  {
    var e := IndexFrom(raw, '\n', from);
    if e < 0 then |raw| else e
  }

  lemma LineStopIs(raw: string, from: nat, e: nat)
    requires from <= e <= |raw| && (e < |raw| ==> raw[e] == '\n')
    requires forall j :: from <= j < e ==> raw[j] != '\n'
    ensures LineStop(raw, from) == e
  {
    hide IndexFrom;
    var stop := LineStop(raw, from);
    assert stop < |raw| ==> raw[stop] == '\n';
  }

  /** The offset just past the first line, from line start `from` on, that closes the block. */
  function CloseFrom(raw: string, from: nat): (k: Option<nat>)
    requires from <= |raw|
    ensures k.Some? ==> from + 3 <= k.value <= |raw|
    decreases |raw| - from
  {
    var e := LineStop(raw, from);
    if Dashes(raw, from, e) then Some(if e == |raw| then |raw| else e + 1)
    else if e == |raw| then None
    else CloseFrom(raw, e + 1)
  }

  datatype Front = Front(head: string, body: string, found: bool)

  function CutAt(raw: string, k: Option<nat>): Front
    requires k.Some? ==> k.value <= |raw|
  {
    if k.None? then Front("", raw, false) else Front(raw[..k.value], raw[k.value..], true)
  }

  function FirstLineEnd(raw: string): (offset: nat)
    requires OpensFrontmatter(raw)
    ensures 0 < offset <= |raw| && raw[offset - 1] == '\n'
    ensures offset == if HasPrefix(raw, "---\n") then 4 else 5
  {
    IndexByteIs(raw, '\n', if HasPrefix(raw, "---\n") then 3 else 4);
    IndexByte(raw, '\n') + 1
  }

  /** splitAfterFrontmatter: what its loop computes. */
  function FrontOf(raw: string): Front {
    CutAt(raw, if OpensFrontmatter(raw) then CloseFrom(raw, FirstLineEnd(raw)) else None)
  }

  /** Head and body are the whole text. */
  lemma FrontIsWhole(raw: string)
    ensures FrontOf(raw).head + FrontOf(raw).body == raw
  {
    hide IndexFrom, CloseFrom;
  }

  /** The line the loop looks at is the line at `offset`, and its test is the closing-line test. */
  lemma LoopSeesLine(raw: string, offset: nat, rest: string, lineEnd: int, line: string)
    requires offset <= |raw| && rest == raw[offset..] && lineEnd == IndexByte(rest, '\n')
    requires line == if lineEnd >= 0 then rest[..lineEnd] else rest
    ensures IsClosing(line) <==> Dashes(raw, offset, LineStop(raw, offset))
    ensures LineStop(raw, offset) == if lineEnd < 0 then |raw| else offset + lineEnd
  {
    hide IndexFrom, TrimCR;
    var e := if lineEnd < 0 then |raw| else offset + lineEnd;
    forall j | offset <= j < e ensures raw[j] != '\n' {
      assert raw[j] == rest[j - offset];
    }
    LineStopIs(raw, offset, e);
    TrimCRDashes(line);
    assert forall i :: 0 <= i < |line| ==> line[i] == raw[offset + i];
    assert forall i :: offset <= i < e ==> line[i - offset] == raw[i];
  }

  /** The split decided from line start `offset` on. */
  function FrontFrom(raw: string, offset: nat): Front
    requires offset <= |raw|
  {
    CutAt(raw, CloseFrom(raw, offset))
  }

  /** One turn of the loop: it returns the split, stops without one, or moves on to the next line. */
  lemma LoopTurn(raw: string, offset: nat, rest: string, lineEnd: int, line: string)
    requires offset <= |raw| && rest == raw[offset..] && lineEnd == IndexByte(rest, '\n')
    requires line == if lineEnd >= 0 then rest[..lineEnd] else rest
    ensures IsClosing(line) && lineEnd < 0 ==> FrontFrom(raw, offset) == Front(raw, "", true)
    ensures IsClosing(line) && lineEnd >= 0 ==>
      FrontFrom(raw, offset) == Front(raw[..offset + lineEnd + 1], rest[lineEnd + 1..], true)
    ensures !IsClosing(line) && lineEnd < 0 ==> FrontFrom(raw, offset) == Front("", raw, false)
    ensures !IsClosing(line) && lineEnd >= 0 ==>
      rest[lineEnd + 1..] == raw[offset + lineEnd + 1..]
        && FrontFrom(raw, offset) == FrontFrom(raw, offset + lineEnd + 1)
  {
    hide IndexFrom, IsClosing, Dashes, LineStop;
    LoopSeesLine(raw, offset, rest, lineEnd, line);
    assert raw[..|raw|] == raw && raw[|raw|..] == "";
    if lineEnd >= 0 {
      assert rest[lineEnd + 1..] == raw[offset + lineEnd + 1..];
    }
  }

  /** The turn moves on. */
  lemma NextTurn(raw: string, offset: nat, lineEnd: nat)
    requires offset <= |raw| && lineEnd == IndexByte(raw[offset..], '\n') && !IsClosing(raw[offset..][..lineEnd])
    ensures offset + lineEnd + 1 <= |raw| && raw[offset..][lineEnd + 1..] == raw[offset + lineEnd + 1..]
    ensures FrontFrom(raw, offset) == FrontFrom(raw, offset + lineEnd + 1)
  {
    hide IndexByte, IsClosing, FrontFrom;
    LoopTurn(raw, offset, raw[offset..], lineEnd, raw[offset..][..lineEnd]);
  }

  /** The turn ends the loop, with what is returned after it. */
  lemma LastTurn(raw: string, offset: nat, rest: string, lineEnd: int, line: string, f: Front)
    requires offset <= |raw| && rest == raw[offset..] && lineEnd == IndexByte(rest, '\n')
    requires line == if lineEnd >= 0 then rest[..lineEnd] else rest
    requires if !IsClosing(line) then lineEnd < 0 && f == Front("", raw, false)
      else if lineEnd < 0 then f == Front(raw, "", true)
      else f == Front(raw[..offset + lineEnd + 1], rest[lineEnd + 1..], true)
    ensures f == FrontFrom(raw, offset)
  {
    hide IndexByte, IsClosing, FrontFrom;
    LoopTurn(raw, offset, rest, lineEnd, line);
  }

  lemma NothingLeft(raw: string)
    ensures FrontFrom(raw, |raw|) == Front("", raw, false)
  {
    hide IndexFrom;
    LineStopIs(raw, |raw|, |raw|);
  }

  lemma FrontOfFrom(raw: string)
    ensures FrontOf(raw) == if OpensFrontmatter(raw) then FrontFrom(raw, FirstLineEnd(raw)) else Front("", raw, false)
  {
  }

  lemma FirstLineIsIndexed(raw: string)
    requires OpensFrontmatter(raw)
    ensures FirstLineEnd(raw) == IndexByte(raw, '\n') + 1
  {
  }

  /** splitAfterFrontmatter, as the loop over offset and rest that the source runs. */
  method SplitAfterFrontmatter(raw: string) returns (head: string, body: string, found: bool)
    ensures Front(head, body, found) == FrontOf(raw)
  {
    hide IndexByte, IndexFrom, IsClosing, FrontFrom, FrontOf, FirstLineEnd, OpensFrontmatter;
    FrontOfFrom(raw);
    if !OpensFrontmatter(raw) {
      return "", raw, false;
    }
    var offset: nat := IndexByte(raw, '\n') + 1;
    assert offset == FirstLineEnd(raw) by { FirstLineIsIndexed(raw); }
    var rest := raw[offset..];
    while |rest| > 0
      invariant offset <= |raw| && rest == raw[offset..]
      invariant FrontFrom(raw, offset) == FrontOf(raw)
      decreases |rest|
    {
      var lineEnd := IndexByte(rest, '\n');
      var line := rest;
      if lineEnd >= 0 {
        line := rest[..lineEnd];
      }
      if IsClosing(line) {
        head, body, found := raw, "", true;
        if lineEnd >= 0 {
          head, body := raw[..offset + lineEnd + 1], rest[lineEnd + 1..];
        }
        LastTurn(raw, offset, rest, lineEnd, line, Front(head, body, found));
        return;
      }
      if lineEnd < 0 {
        LastTurn(raw, offset, rest, lineEnd, line, Front("", raw, false));
        return "", raw, false;  // break
      }
      NextTurn(raw, offset, lineEnd);
      offset := offset + lineEnd + 1;
      rest := rest[lineEnd + 1..];
    }
    assert offset == |raw|;
    NothingLeft(raw);
    return "", raw, false;
  }

  // ----- Where it cuts -------------------------------------------------------------------------

  /** A line starts at `a`, its text closes a block, and it ends, newline included, at `b`. */
  predicate ClosingLine(raw: string, a: nat, b: nat) {
    && a <= |raw|
    && (a == 0 || raw[a - 1] == '\n')
    && var e := LineStop(raw, a);
    Dashes(raw, a, e) && b == if e == |raw| then e else e + 1
  }

  ghost predicate NoClosing(raw: string, lo: nat) {
    forall a: nat, b: nat :: lo <= a ==> !ClosingLine(raw, a, b)
  }

  /** The first closing line at or after `lo` ends at `b`. */
  ghost predicate FirstClosing(raw: string, lo: nat, a: nat, b: nat) {
    && lo <= a && ClosingLine(raw, a, b)
    && forall a': nat, b': nat :: lo <= a' < a ==> !ClosingLine(raw, a', b')
  }

  lemma {:induction false} CloseFromIsFirst(raw: string, from: nat) returns (a: nat)
    requires 0 < from <= |raw| && raw[from - 1] == '\n'
    ensures CloseFrom(raw, from).None? ==> NoClosing(raw, from)
    ensures CloseFrom(raw, from).Some? ==> FirstClosing(raw, from, a, CloseFrom(raw, from).value)
    decreases |raw| - from
  {
    hide IndexFrom;
    a := from;
    var e := LineStop(raw, from);
    if !Dashes(raw, from, e) && e < |raw| {
      a := CloseFromIsFirst(raw, e + 1);
    }
  }

  /** splitAfterFrontmatter finds a block exactly when some line after the opening one closes it, and
      cuts right after the first such line. */
  lemma FrontCutsAtFirstClosing(raw: string)
    ensures !OpensFrontmatter(raw) ==> !FrontOf(raw).found
    ensures OpensFrontmatter(raw) && !FrontOf(raw).found ==> NoClosing(raw, FirstLineEnd(raw))
    ensures FrontOf(raw).found ==>
      OpensFrontmatter(raw) && exists a: nat :: FirstClosing(raw, FirstLineEnd(raw), a, |FrontOf(raw).head|)
  {
    if OpensFrontmatter(raw) {
      var a := CloseFromIsFirst(raw, FirstLineEnd(raw));
    }
  }

  /** No line is three dashes with nothing but carriage returns after them. */
  ghost predicate NoRule(lines: seq<string>) {
    forall l :: l in lines ==> !("---" <= l && forall i :: 3 <= i < |l| ==> l[i] == '\r')
  }

  /** The line `l` of a text, where it starts and stops. */
  lemma LineInText(raw: string, a: string, l: string, b: string)
    requires raw == a + l + b && '\n' !in l && (b == "" || b[0] == '\n')
    ensures LineStop(raw, |a|) == |a| + |l|
    ensures Dashes(raw, |a|, |a| + |l|) <==> "---" <= l && forall i :: 3 <= i < |l| ==> l[i] == '\r'
  {
    hide IndexFrom;
    assert forall i :: 0 <= i < |l| ==> raw[|a| + i] == l[i];
    assert forall i :: |a| <= i < |a| + |l| ==> raw[i] == l[i - |a|];
    LineStopIs(raw, |a|, |a| + |l|);
  }

  /** Where the block is closed from a line on that stops at `n` with `b` behind it. */
  ghost function CloseAfter(raw: string, n: nat, line: string, b: string): Option<nat>
    requires n <= |raw| && (b != "" ==> n < |raw|)
  {
    if !NoRule([line]) then Some(if b == "" then n else n + 1) else if b == "" then None else CloseFrom(raw, n + 1)
  }

  lemma OneLineCloses(raw: string, a: string, l: string, b: string)
    requires raw == a + l + b && '\n' !in l && (b == "" || b[0] == '\n')
    ensures CloseFrom(raw, |a|) == CloseAfter(raw, |a + l|, l, b)
    ensures NoRule([l]) && b != "" ==> CloseFrom(raw, |a|) == CloseFrom(raw, |a + l + "\n"|)
  {
    hide IndexFrom, LineStop, Dashes;
    LineInText(raw, a, l, b);
    assert l in [l];
  }

  /** Where the block is closed by the first line that can close it. */
  lemma {:induction false} CloseFromLines(raw: string, a: string, lines: seq<string>, close: string, b: string)
    requires raw == a + Join(lines + [close]) + b && (b == "" || b[0] == '\n')
    requires NoRule(lines) && forall l :: l in lines + [close] ==> '\n' !in l
    ensures CloseFrom(raw, |a|) == CloseAfter(raw, |a + Join(lines + [close])|, close, b)
    decreases |lines|
  {
    hide CloseFrom, CloseAfter, Join, NoRule;
    assert close in lines + [close];
    if lines == [] {
      assert lines + [close] == [close];
      assert Join([close]) == close by { JoinOne(close); }
      OneLineCloses(raw, a, close, b);
    } else {
      var l, rest := lines[0], lines[1..];
      var tail := Join(rest + [close]);
      FirstLineApart(lines, close);
      Regrouped(a, l, tail, b);
      RulesApart(l, rest);
      OneLineCloses(raw, a, l, "\n" + tail + b);
      CloseFromLines(raw, a + l + "\n", rest, close, b);
    }
  }

  lemma FirstLineApart(lines: seq<string>, close: string)
    requires lines != []
    ensures var (l, rest) := (lines[0], lines[1..]);
      && lines == [l] + rest && l in lines + [close] && (forall k :: k in rest + [close] ==> k in lines + [close])
      && Join(lines + [close]) == l + "\n" + Join(rest + [close])
  {
    hide Join;
    var l, rest := lines[0], lines[1..];
    assert lines + [close] == [l] + (rest + [close]);
    JoinCons(l, rest + [close]);
  }

  lemma Regrouped(a: string, l: string, tail: string, b: string)
    ensures a + (l + "\n" + tail) + b == a + l + ("\n" + tail + b)
    ensures a + (l + "\n" + tail) + b == (a + l + "\n") + tail + b
    ensures |a + (l + "\n" + tail)| == |(a + l + "\n") + tail|
  {
  }

  lemma RulesApart(l: string, rest: seq<string>)
    requires NoRule([l] + rest)
    ensures NoRule([l]) && NoRule(rest)
  {
    assert forall k :: k in [l] || k in rest ==> k in [l] + rest;
  }

  /** The line a frontmatter block opens with. */
  predicate IsOpening(open: string) {
    open == "---\n" || open == "---\r\n"
  }

  lemma OpeningLine(open: string, rest: string)
    requires IsOpening(open)
    ensures OpensFrontmatter(open + rest) && FirstLineEnd(open + rest) == |open|
  {
    var raw := open + rest;
    assert raw[..|open|] == open;
    assert open == "---\r\n" ==> raw[3] == '\r';
  }

  /** Line by line: after an opening line, the first line of three dashes and carriage returns closes the
      block, and the body is what follows that line. */
  lemma FrontOfLines(open: string, lines: seq<string>, close: string, rest: string)
    requires IsOpening(open) && NoRule(lines) && !NoRule([close]) && forall l :: l in lines + [close] ==> '\n' !in l
    ensures var head := open + Join(lines + [close]);
      && FrontOf(head + "\n" + rest) == Front(head + "\n", rest, true)
      && FrontOf(head) == Front(head, "", true)
  {
    hide CloseFrom, FirstLineEnd, NoRule;
    var head := open + Join(lines + [close]);
    OpeningLine(open, Join(lines + [close]));
    CloseFromLines(head, open, lines, close, "");
    assert head + "" == head;
    OpeningLine(open, Join(lines + [close]) + "\n" + rest);
    var raw := head + "\n" + rest;
    assert raw == open + (Join(lines + [close]) + "\n" + rest);
    assert raw == head + ("\n" + rest);
    CloseFromLines(raw, open, lines, close, "\n" + rest);
    assert raw[..|head| + 1] == head + "\n" && raw[|head| + 1..] == rest;
  }

  /** And with no such line there is no block. */
  lemma NoFrontOfLines(open: string, lines: seq<string>)
    requires IsOpening(open) && lines != [] && NoRule(lines) && forall l :: l in lines ==> '\n' !in l
    ensures FrontOf(open + Join(lines)) == Front("", open + Join(lines), false)
  {
    hide CloseFrom, FirstLineEnd;
    var init, last := lines[..|lines| - 1], lines[|lines| - 1];
    assert lines == init + [last];
    OpeningLine(open, Join(lines));
    assert last in lines && forall l :: l in init ==> l in lines;
    CloseFromLines(open + Join(lines), open, init, last, "");
  }

  /** The block is complete: the text goes on in a new line after it. */
  predicate EndsLine(head: string) {
    head != "" && head[|head| - 1] == '\n'
  }

  lemma {:induction false} CloseFromOfPrefix(raw: string, from: nat, k: nat, x: string)
    requires from <= |raw| && CloseFrom(raw, from) == Some(k) && raw[k - 1] == '\n'
    ensures CloseFrom(raw[..k] + x, from) == Some(k)
    decreases |raw| - from
  {
    hide IndexFrom, Dashes;
    var e := LineStop(raw, from);
    LineOfPrefix(raw, from, k, x);
    if !Dashes(raw, from, e) {
      CloseFromOfPrefix(raw, e + 1, k, x);
    }
  }

  /** A line that ends before k is the same in any text that agrees up to k. */
  lemma LineOfPrefix(raw: string, from: nat, k: nat, x: string)
    requires from <= |raw| && CloseFrom(raw, from) == Some(k) && raw[k - 1] == '\n'
    ensures from <= k && LineStop(raw, from) < k && LineStop(raw[..k] + x, from) == LineStop(raw, from)
    ensures Dashes(raw[..k] + x, from, LineStop(raw, from)) <==> Dashes(raw, from, LineStop(raw, from))
  {
    hide IndexFrom;
    var head, e := raw[..k], LineStop(raw, from);
    assert raw == head + raw[k..] && head[k - 1] == '\n';
    assert e < k;
    assert forall j :: from <= j <= e ==> head[j] == raw[j];
    LineStopIs(head, from, e);
    SameLine(head, from, x);
    SameLine(head, from, raw[k..]);
  }

  /** Replacing the text after a complete frontmatter block leaves the block alone. */
  lemma FrontReplacesBody(raw: string, x: string)
    requires FrontOf(raw).found && EndsLine(FrontOf(raw).head)
    ensures FrontOf(FrontOf(raw).head + x) == Front(FrontOf(raw).head, x, true)
  {
    hide IndexFrom, CloseFrom;
    var head := FrontOf(raw).head;
    var from := FirstLineEnd(raw);
    CloseFromOfPrefix(raw, from, |head|, x);
    var cut := head + x;
    assert cut[..4] == raw[..4] && cut[..5] == raw[..5];
    assert FirstLineEnd(cut) == from;
    assert cut[..|head|] == head && cut[|head|..] == x;
  }

  /** A block whose closing line ends the text without a newline is lost when a line is glued to it. */
  lemma {:induction false} CloseFromGlued(raw: string, from: nat, glued: string)
    requires from <= |raw| && CloseFrom(raw, from) == Some(|raw|) && raw[|raw| - 1] != '\n'
    requires '\n' !in glued && glued != "" && glued[|glued| - 1] != '\r'
    ensures CloseFrom(raw + (glued + "\n"), from) == None
    decreases |raw| - from
  {
    hide IndexFrom;
    var whole := raw + (glued + "\n");
    var e := LineStop(raw, from);
    if e == |raw| {
      GluedLine(raw, from, glued);
      LineStopIs(whole, |whole|, |whole|);
    } else {
      SameLine(raw, from, glued + "\n");
      CloseFromGlued(raw, e + 1, glued);
    }
  }

  /** The text glued to the last line makes one line with it, and that is no closing line. */
  lemma GluedLine(raw: string, from: nat, glued: string)
    requires from <= |raw| && LineStop(raw, from) == |raw|
    requires '\n' !in glued && glued != "" && glued[|glued| - 1] != '\r'
    ensures var whole := raw + (glued + "\n");
      LineStop(whole, from) == |whole| - 1 && (Dashes(raw, from, |raw|) ==> !Dashes(whole, from, |whole| - 1))
  {
    hide IndexFrom;
    var whole := raw + (glued + "\n");
    var last := |whole| - 1;
    assert whole[last] == '\n' && whole[last - 1] == glued[|glued| - 1];
    assert forall j :: from <= j < |raw| ==> whole[j] == raw[j];
    assert forall j :: |raw| <= j < last ==> whole[j] == glued[j - |raw|];
    LineStopIs(whole, from, last);
  }

  /** A line that ends in the text stays as it is when the text goes on. */
  lemma SameLine(raw: string, from: nat, more: string)
    requires from <= |raw| && LineStop(raw, from) < |raw|
    ensures LineStop(raw + more, from) == LineStop(raw, from)
    ensures Dashes(raw + more, from, LineStop(raw, from)) <==> Dashes(raw, from, LineStop(raw, from))
  {
    hide IndexFrom;
    var whole := raw + more;
    assert forall j :: 0 <= j < |raw| ==> whole[j] == raw[j];
    LineStopIs(whole, from, LineStop(raw, from));
  }

  // ----- The stamp -----------------------------------------------------------------------------

  /** An end marker cannot start inside the begin marker, so cutStamp's slice is in range. */
  lemma EndAfterBegin(s: string, k: nat)
    requires HasPrefix(s, STAMP_BEGIN) && k <= |s| && STAMP_END <= s[k..]
    ensures k >= |STAMP_BEGIN|
  {
    assert s[k..][0] == s[k] && s[k..][1] == s[k + 1] && s[k..][16] == s[k + 16];
    assert s[k] == 's' && s[k + 1] == 'a' && s[k + 16] == 'e';
  }

  datatype Cut = Cut(stamp: Stamp, rest: string, ok: bool, malformed: bool)

  function AfterNewline(s: string): string {
    if HasPrefix(s, "\n") then s[1..] else s
  }

  /** cutStamp: parse the stamp block at the start of `s`. */
  function CutStamp(p: Platform, s: string): (c: Cut)
    requires HasPrefix(s, STAMP_BEGIN)
    ensures !(c.ok && c.malformed)
  {
    var end := Index(s, STAMP_END);
    if end < 0 then Cut(NO_STAMP, s, false, true)
    else
      EndAfterBegin(s, end);
      var rest := AfterNewline(s[end + |STAMP_END|..]);
      var st := p.decode(TrimSpace(s[|STAMP_BEGIN|..end]));
      if st.None? || st.value.documentId == "" then Cut(NO_STAMP, rest, false, true)
      else Cut(st.value, rest, true, false)
  }

  datatype Parsed = Parsed(stamp: Stamp, authored: string, ok: bool, malformed: bool, legacy: bool)

  /** splitStamp. */
  function SplitStamp(p: Platform, raw: string): (r: Parsed)
    ensures !(r.ok && r.malformed)
  {
    if HasPrefix(raw, STAMP_BEGIN) then
      var c := CutStamp(p, raw);
      Parsed(c.stamp, c.rest, c.ok, c.malformed, c.ok)
    else
      var f := FrontOf(raw);
      if !f.found || !HasPrefix(f.body, STAMP_BEGIN) then Parsed(NO_STAMP, raw, false, false, false)
      else
        var c := CutStamp(p, f.body);
        Parsed(c.stamp, f.head + c.rest, c.ok, c.malformed, false)
  }

  function StampOf(p: Platform, s: Row): Stamp {
    Stamp(s.documentId, s.version, p.hash(s.body), s.publisher)
  }

  /** materialise. */
  function Materialise(p: Platform, s: Row): string {
    var f := FrontOf(s.body);
    if !f.found then StampBlock(p, StampOf(p, s)) + s.body
    else f.head + StampBlock(p, StampOf(p, s)) + f.body
  }

  /** The first end marker after a printed block is the block's own: no '>' comes before it. */
  lemma EndOfPrintedBlock(e: string, rest: string)
    requires JsonObjectLine(e)
    ensures Index(STAMP_BEGIN + " " + e + " " + STAMP_END + "\n" + rest, STAMP_END) == |STAMP_BEGIN| + |e| + 2
  {
    var s := STAMP_BEGIN + " " + e + " " + STAMP_END + "\n" + rest;
    var k := |STAMP_BEGIN| + |e| + 2;
    var before := STAMP_BEGIN + " " + e + " " + STAMP_END[..22];
    assert s[..k + 22] == before;
    assert '>' !in before;
    assert s[k..] == STAMP_END + ("\n" + rest);
    forall j | 0 <= j < k ensures !(STAMP_END <= s[j..]) {
      assert s[j + 22] == before[j + 22];
      assert s[j..][22] != STAMP_END[22];
    }
    IndexIsFirst(s, STAMP_END, k);
  }

  /** Where cutStamp finds its pieces decides what it makes of them. */
  lemma CutStampFrom(p: Platform, s: string, end: nat, e: string, rest: string)
    requires HasPrefix(s, STAMP_BEGIN) && Index(s, STAMP_END) == end && |STAMP_BEGIN| <= end
    requires end + |STAMP_END| <= |s| && s[end + |STAMP_END|..] == "\n" + rest
    requires TrimSpace(s[|STAMP_BEGIN|..end]) == e
    ensures CutStamp(p, s)
         == if p.decode(e).None? || p.decode(e).value.documentId == "" then Cut(NO_STAMP, rest, false, true)
            else Cut(p.decode(e).value, rest, true, false)
  {
    hide Index, TrimSpace;
    assert AfterNewline("\n" + rest) == rest;
  }

  lemma PrintedPieces(e: string, rest: string)
    ensures var (s, end) := (STAMP_BEGIN + " " + e + " " + STAMP_END + "\n" + rest, |STAMP_BEGIN| + |e| + 2);
      && HasPrefix(s, STAMP_BEGIN) && end + |STAMP_END| <= |s|
      && s[|STAMP_BEGIN|..end] == " " + e + " " && s[end + |STAMP_END|..] == "\n" + rest
  {
  }

  /** A block is cut to the stamp it decodes to, and to what follows it. */
  lemma BlockCuts(p: Platform, e: string, rest: string)
    requires JsonObjectLine(e)
    ensures var s := STAMP_BEGIN + " " + e + " " + STAMP_END + "\n" + rest;
      && HasPrefix(s, STAMP_BEGIN)
      && CutStamp(p, s) == if p.decode(e).None? || p.decode(e).value.documentId == "" then
        Cut(NO_STAMP, rest, false, true) else Cut(p.decode(e).value, rest, true, false)
  {
    hide CutStamp, Index, TrimSpace, HasPrefix;
    var s, end := STAMP_BEGIN + " " + e + " " + STAMP_END + "\n" + rest, |STAMP_BEGIN| + |e| + 2;
    EndOfPrintedBlock(e, rest);
    PrintedPieces(e, rest);
    TrimPadded(e);
    CutStampFrom(p, s, end, e, rest);
  }

  lemma CutPrintedBlock(p: Platform, st: Stamp, rest: string)
    requires LawfulAt(p, st)
    ensures HasPrefix(StampBlock(p, st) + rest, STAMP_BEGIN)
    ensures CutStamp(p, StampBlock(p, st) + rest)
         == if st.documentId == "" then Cut(NO_STAMP, rest, false, true) else Cut(st, rest, true, false)
  {
    hide CutStamp, HasPrefix, JsonObjectLine;
    BlockCuts(p, p.encode(st), rest);
    assert StampBlock(p, st) + rest == STAMP_BEGIN + " " + p.encode(st) + " " + STAMP_END + "\n" + rest;
  }

  /** A block, spelled out. */
  lemma BlockLiteral(e: string)
    ensures STAMP_BEGIN + " " + e + " " + STAMP_END + "\n"
      == "<!-- satellites-sync:begin " + e + " satellites-sync:end -->\n"
  {
  }

  // ----- Print then parse ----------------------------------------------------------------------

  /** The frontmatter block ends the text, with no newline after its closing line. */
  predicate Glued(body: string) {
    FrontOf(body).found && !EndsLine(FrontOf(body).head)
  }

  /** There is such a text: two lines of dashes. */
  lemma GluedExample()
    ensures Glued("---\n---")
  {
    var body := "---\n---";
    assert body[..4] == "---\n" && FirstLineEnd(body) == 4;
    LineStopIs(body, 4, 7);
    assert CloseFrom(body, 4) == Some(7);
    assert FrontOf(body) == Front(body, "", true);
  }

  /** What splitStamp reads back off a freshly printed file, for every row. */
  function ReadBack(p: Platform, s: Row): Parsed {
    if Glued(s.body) then Parsed(NO_STAMP, Materialise(p, s), false, false, false)
    else if s.documentId == "" then Parsed(NO_STAMP, s.body, false, true, false)
    else Parsed(StampOf(p, s), s.body, true, false, !FrontOf(s.body).found)
  }

  lemma HeadIsNoStamp(raw: string)
    requires OpensFrontmatter(raw)
    ensures !HasPrefix(raw, STAMP_BEGIN)
  {
    assert raw[0] == '-';
  }

  lemma FoundOpens(raw: string)
    requires FrontOf(raw).found
    ensures OpensFrontmatter(raw) && !HasPrefix(raw, STAMP_BEGIN)
  {
    hide CloseFrom, FirstLineEnd;
    HeadIsNoStamp(raw);
  }

  lemma PrintedWithoutFrontmatter(p: Platform, s: Row)
    requires LawfulAt(p, StampOf(p, s)) && !FrontOf(s.body).found
    ensures SplitStamp(p, Materialise(p, s)) == ReadBack(p, s)
  {
    hide FrontOf, CutStamp, LawfulAt, StampBlock;
    CutPrintedBlock(p, StampOf(p, s), s.body);
  }

  lemma PrintedAfterFrontmatter(p: Platform, s: Row)
    requires LawfulAt(p, StampOf(p, s)) && FrontOf(s.body).found && !Glued(s.body)
    ensures SplitStamp(p, Materialise(p, s)) == ReadBack(p, s)
  {
    hide FrontOf, CutStamp, LawfulAt, StampBlock, HasPrefix, OpensFrontmatter;
    var f := FrontOf(s.body);
    var block := StampBlock(p, StampOf(p, s));
    FrontReplacesBody(s.body, block + f.body);
    FrontIsWhole(s.body);
    assert Materialise(p, s) == f.head + (block + f.body);
    FoundOpens(f.head + (block + f.body));
    CutPrintedBlock(p, StampOf(p, s), f.body);
  }

  lemma {:induction false} CloseFromEndsLineOrText(raw: string, from: nat, k: nat)
    requires from <= |raw| && CloseFrom(raw, from) == Some(k)
    ensures 0 < k <= |raw| && (raw[k - 1] == '\n' || k == |raw|)
    decreases |raw| - from
  {
    hide IndexFrom;
    var e := LineStop(raw, from);
    if !Dashes(raw, from, e) {
      CloseFromEndsLineOrText(raw, e + 1, k);
    }
  }

  lemma CutWithoutNewline(raw: string, k: nat)
    requires 0 < k <= |raw| && (raw[k - 1] == '\n' || k == |raw|) && !EndsLine(raw[..k])
    ensures k == |raw| && CutAt(raw, Some(k)) == Front(raw, "", true) && raw[|raw| - 1] != '\n'
  {
    assert raw[..k][k - 1] == raw[k - 1];
  }

  lemma GluedIsWhole(body: string)
    requires Glued(body)
    ensures OpensFrontmatter(body) && CloseFrom(body, FirstLineEnd(body)) == Some(|body|)
    ensures FrontOf(body) == Front(body, "", true) && body[|body| - 1] != '\n'
  {
    var from := FirstLineEnd(body);
    var k := CloseFrom(body, from).value;
    CloseFromEndsLineOrText(body, from, k);
    CutWithoutNewline(body, k);
  }

  lemma GluedFileHasNoFront(body: string, glued: string)
    requires Glued(body)
    requires '\n' !in glued && glued != "" && glued[|glued| - 1] != '\r'
    ensures var whole := body + (glued + "\n");
      !HasPrefix(whole, STAMP_BEGIN) && !FrontOf(whole).found
  {
    GluedIsWhole(body);
    CloseFromGlued(body, FirstLineEnd(body), glued);
    var whole := body + (glued + "\n");
    assert whole[..4] == body[..4] && (|body| >= 5 ==> whole[..5] == body[..5]);
    HeadIsNoStamp(whole);
  }

  lemma BlockIsOneLine(e: string)
    requires JsonObjectLine(e)
    ensures var glued := STAMP_BEGIN + " " + e + " " + STAMP_END;
      '\n' !in glued && glued != "" && glued[|glued| - 1] == '>'
  {
    assert '\n' !in STAMP_BEGIN + " ";
    assert '\n' !in " " + STAMP_END;
    assert STAMP_BEGIN + " " + e + " " + STAMP_END == (STAMP_BEGIN + " ") + e + (" " + STAMP_END);
  }

  lemma PrintedGlued(p: Platform, s: Row)
    requires LawfulAt(p, StampOf(p, s)) && Glued(s.body)
    ensures SplitStamp(p, Materialise(p, s)) == ReadBack(p, s)
    ensures Materialise(p, s) != s.body
  {
    var e := p.encode(StampOf(p, s));
    assert p.decode(e).Some? && JsonObjectLine(e);
    var glued := STAMP_BEGIN + " " + e + " " + STAMP_END;
    BlockIsOneLine(e);
    GluedFileHasNoFront(s.body, glued);
    assert Materialise(p, s) == s.body + (glued + "\n") by {
      GluedIsWhole(s.body);
      assert StampBlock(p, StampOf(p, s)) == glued + "\n";
    }
  }

  /** Print then parse: for every row, and every codec lawful at its stamp, splitStamp of materialise. */
  lemma PrintThenParse(p: Platform, s: Row)
    requires LawfulAt(p, StampOf(p, s))
    ensures SplitStamp(p, Materialise(p, s)) == ReadBack(p, s)
  {
    if Glued(s.body) {
      PrintedGlued(p, s);
    } else if FrontOf(s.body).found {
      PrintedAfterFrontmatter(p, s);
    } else {
      PrintedWithoutFrontmatter(p, s);
    }
  }

  /** Any stamp, read back from in front of any text, and from behind the frontmatter of any text: the first
      is the layout reported as legacy. */
  lemma StampParses(p: Platform, st: Stamp, text: string)
    requires LawfulAt(p, st) && st.documentId != ""
    ensures var block := "<!-- satellites-sync:begin " + p.encode(st) + " satellites-sync:end -->\n";
      && SplitStamp(p, block + text) == Parsed(st, text, true, false, true)
      && (FrontOf(text).found && !Glued(text) ==>
            SplitStamp(p, FrontOf(text).head + block + FrontOf(text).body) == Parsed(st, text, true, false, false))
  {
    hide FrontOf, CutStamp, LawfulAt, HasPrefix, OpensFrontmatter;
    var block := "<!-- satellites-sync:begin " + p.encode(st) + " satellites-sync:end -->\n";
    BlockLiteral(p.encode(st));
    CutPrintedBlock(p, st, text);
    var f := FrontOf(text);
    if f.found && !Glued(text) {
      FrontReplacesBody(text, block + f.body);
      FrontIsWhole(text);
      assert f.head + block + f.body == f.head + (block + f.body);
      FoundOpens(f.head + (block + f.body));
      CutPrintedBlock(p, st, f.body);
    }
  }

  /** A stamp is only looked for at the very start and right behind the frontmatter; there the marker is a
      stamp or a malformed one, and anywhere else it is text. */
  lemma StampOnlyInItsPlaces(p: Platform, text: string)
    ensures var r := SplitStamp(p, text);
      r.ok || r.malformed <==>
        ("<!-- satellites-sync:begin" <= text
         || (FrontOf(text).found && "<!-- satellites-sync:begin" <= FrontOf(text).body))
    ensures var r := SplitStamp(p, text);
      !r.ok && !r.malformed ==> r == Parsed(NO_STAMP, text, false, false, false)
  {
    hide FrontOf, Index, TrimSpace;
  }

  /** A block that does not decode, or decodes without a document id, is malformed, and the text around it is
      the body. */
  lemma BadStampParses(p: Platform, e: string, text: string)
    requires JsonObjectLine(e) && (p.decode(e).None? || p.decode(e).value.documentId == "")
    ensures var block := "<!-- satellites-sync:begin " + e + " satellites-sync:end -->\n";
      && SplitStamp(p, block + text) == Parsed(NO_STAMP, text, false, true, false)
      && (FrontOf(text).found && !Glued(text) ==>
            SplitStamp(p, FrontOf(text).head + block + FrontOf(text).body)
              == Parsed(NO_STAMP, text, false, true, false))
  {
    hide FrontOf, CutStamp, HasPrefix, OpensFrontmatter, JsonObjectLine;
    var block := "<!-- satellites-sync:begin " + e + " satellites-sync:end -->\n";
    BlockLiteral(e);
    BlockCuts(p, e, text);
    var f := FrontOf(text);
    if f.found && !Glued(text) {
      FrontReplacesBody(text, block + f.body);
      FrontIsWhole(text);
      assert f.head + block + f.body == f.head + (block + f.body);
      FoundOpens(f.head + (block + f.body));
      BlockCuts(p, e, f.body);
    }
  }

  /** A begin marker without an end marker after it is malformed, and nothing is cut. */
  lemma UnendedStampParses(p: Platform, text: string)
    requires "<!-- satellites-sync:begin" <= text
    requires forall k :: 0 <= k <= |text| ==> !("satellites-sync:end -->" <= text[k..])
    ensures SplitStamp(p, text) == Parsed(NO_STAMP, text, false, true, false)
  {
    hide FrontOf, TrimSpace, IndexSubFrom;
    assert Index(text, STAMP_END) < 0;
  }

  /** The stamp and the body come back exactly when the document id is set and no frontmatter block
      ends the body without a newline; the layout is then legacy exactly when there is no block. */
  lemma RoundTripExactly(p: Platform, s: Row)
    requires LawfulAt(p, StampOf(p, s))
    ensures
      SplitStamp(p, Materialise(p, s)) == Parsed(Stamp(s.documentId, s.version, p.hash(s.body), s.publisher), s.body,
        true, false, !FrontOf(s.body).found)
      <==> s.documentId != "" && !Glued(s.body)
  {
    PrintThenParse(p, s);
  }
}
