/** The provenance stamp of a published skill: one whole line, replaced on every publish and taken out
    on adoption (internal/cli/cmd_skill_publish.go, internal/cli/cmd_skill_search_adopt.go). */
module LibraryStamp {
  import opened Text

  const BEGIN := "<!-- satellites-library:begin"
  const END := "satellites-library:end -->"

  /** renderLibraryStamp on the marshalled provenance. */
  function Render(blob: string): string {
    BEGIN + " " + blob + " " + END
  }

  // ----- libraryStampLine, `(?m)^<begin> .* <end>\n?` -------------------------------------------

  /** " " + END occurs in the line at p. */
  predicate EndsAt(line: string, p: nat) {
    p <= |line| && " " + END <= line[p..]
  }

  /** The last such position in [lo, hi], or -1: `.*` is greedy. */
  function LastEnd(line: string, lo: nat, hi: nat): (p: int)
    requires hi <= |line|
    ensures p == -1 || (lo <= p <= hi && EndsAt(line, p))
    ensures forall q :: lo <= q <= hi && q > p ==> !EndsAt(line, q)
    decreases hi
  {
    if hi < lo then -1 else if EndsAt(line, hi) then hi else if hi == 0 then -1 else LastEnd(line, lo, hi - 1)
  }

  /** Where the match at the start of a line stops, -1 when there is none. */
  function MatchEnd(line: string): (e: int)
    ensures -1 <= e <= |line|
  {
    if !HasPrefix(line, BEGIN + " ") then -1
    else
      var p := LastEnd(line, |BEGIN| + 1, |line|);
      if p < 0 then -1 else p + 1 + |END|
  }

  predicate IsStamped(line: string) {
    MatchEnd(line) >= 0
  }

  /** A match of the pattern: the begin marker opens the line, and the end marker stands behind it at `i`, a
      space on either side of what is between. */
  predicate StampSpan(line: string, i: int) {
    && "<!-- satellites-library:begin " <= line && |"<!-- satellites-library:begin "| <= i <= |line|
    && " satellites-library:end -->" <= line[i..]
  }

  /** A line is stamped exactly when the pattern matches it, and what is taken off it goes up to the end of
      the last end marker. */
  lemma StampedExactly(line: string)
    ensures IsStamped(line) <==> exists i :: StampSpan(line, i)
    ensures forall i :: StampSpan(line, i) && (forall j :: i < j <= |line| ==> !StampSpan(line, j)) ==>
      MatchEnd(line) == i + |" satellites-library:end -->"|
  {
    hide LastEnd;
    var lo := |BEGIN| + 1;
    assert BEGIN + " " == "<!-- satellites-library:begin " && " " + END == " satellites-library:end -->";
    assert forall i :: StampSpan(line, i) <==> HasPrefix(line, BEGIN + " ") && lo <= i <= |line| && EndsAt(line, i);
    var p := LastEnd(line, lo, |line|);
  }

  /** ReplaceAllString line by line: a match takes the newline with it when the line ends there. */
  function StripLines(lines: seq<string>): seq<string> {
    if lines == [] then []
    else
      var e := MatchEnd(lines[0]);
      (if e < 0 then [lines[0]]
       else if e == |lines[0]| && |lines| > 1 then []
       else [lines[0][e..]]) + StripLines(lines[1..])
  }

  /** libraryStampLine.ReplaceAllString(body, ""). */
  function Strip(body: string): string {
    Join(StripLines(Lines(body)))
  }

  ghost predicate StampFree(lines: seq<string>) {
    forall l :: l in lines ==> !IsStamped(l)
  }

  /** What is left of a stamped line has no end marker, so it is no stamp. */
  lemma RemainderIsFree(line: string)
    requires IsStamped(line)
    ensures !IsStamped(line[MatchEnd(line)..])
  {
    var e := MatchEnd(line);
    var r := line[e..];
    var p := LastEnd(r, |BEGIN| + 1, |r|);
    if p >= 0 {
      assert r[p..] == line[e + p..];
      assert EndsAt(line, e + p);
    }
  }

  lemma {:induction false} StripIsFree(lines: seq<string>)
    ensures StampFree(StripLines(lines))
    ensures lines != [] ==> StripLines(lines) != []
    ensures (forall l :: l in lines ==> '\n' !in l) ==> forall l :: l in StripLines(lines) ==> '\n' !in l
  {
    hide MatchEnd;
    if lines != [] {
      StripIsFree(lines[1..]);
      if IsStamped(lines[0]) {
        hide *;
        RemainderIsFree(lines[0]);
      }
      StripFirst(lines);
    }
  }

  lemma StripFirst(lines: seq<string>)
    requires lines != [] && StampFree(StripLines(lines[1..]))
    requires IsStamped(lines[0]) ==> !IsStamped(lines[0][MatchEnd(lines[0])..])
    requires |lines| > 1 ==> StripLines(lines[1..]) != []
    requires (forall l :: l in lines[1..] ==> '\n' !in l) ==> forall l :: l in StripLines(lines[1..]) ==> '\n' !in l
    ensures StampFree(StripLines(lines)) && StripLines(lines) != []
    ensures (forall l :: l in lines ==> '\n' !in l) ==> forall l :: l in StripLines(lines) ==> '\n' !in l
  {
    hide MatchEnd;
    var e := MatchEnd(lines[0]);
    var first := if e < 0 then [lines[0]] else if e == |lines[0]| && |lines| > 1 then [] else [lines[0][e..]];
    assert StripLines(lines) == first + StripLines(lines[1..]);
    assert forall l :: l in first ==> !IsStamped(l);
    assert lines[0] in lines && forall l :: l in lines[1..] ==> l in lines;
  }

  lemma {:induction false} FreeStaysAsItIs(a: seq<string>, b: seq<string>)
    requires StampFree(a)
    ensures StripLines(a + b) == a + StripLines(b)
    decreases |a|
  {
    hide MatchEnd;
    if a == [] {
      assert a + b == b;
    } else {
      assert (a + b)[1..] == a[1..] + b && a[0] in a;
      assert forall l :: l in a[1..] ==> l in a;
      FreeStaysAsItIs(a[1..], b);
    }
  }

  /** Stripping twice is stripping once. */
  lemma StripIsIdempotent(body: string)
    ensures StampFree(Lines(Strip(body)))
    ensures Strip(Strip(body)) == Strip(body)
  {
    hide StripLines, StampFree;
    var kept := StripLines(Lines(body));
    StripIsFree(Lines(body));
    LinesJoin(kept);
    FreeStaysAsItIs(kept, []);
    assert kept + [] == kept && StripLines([]) == [] by { NothingToStrip(); }
  }

  lemma NothingToStrip()
    ensures StripLines([]) == []
  {
  }

  // ----- Injection -----------------------------------------------------------------------------

  /** Where the stamp goes: after the line that closes the frontmatter, or at the top. */
  function InsertAt(b: string): (at: nat)
    ensures at <= |b|
  {
    if !HasPrefix(b, "---\n") && !HasPrefix(b, "---\r\n") then 0
    else
      var o := IndexByte(b, '\n') + 1;
      var rest := b[o..];
      var idx := Index(rest, "\n---");
      if idx < 0 then 0
      else
        var closeEnd := IndexByte(rest[idx + 1..], '\n');
        if closeEnd < 0 then 0 else o + idx + 1 + closeEnd + 1
  }

  /** injectLibraryStamp. */
  function Inject(body: string, stamp: string): string {
    var b := Strip(body);
    var at := InsertAt(b);
    b[..at] + stamp + "\n" + b[at..]
  }

  lemma InsertsAtLineStart(b: string)
    ensures InsertAt(b) == 0 || b[InsertAt(b) - 1] == '\n'
  {
    hide Index, IndexByte, IndexFrom, Strip, HasPrefix;
    if InsertAt(b) > 0 {
      var o := IndexByte(b, '\n') + 1;
      var rest := b[o..];
      var idx := Index(rest, "\n---");
      var tail := rest[idx + 1..];
      var closeEnd := IndexByte(tail, '\n');
      FoundByte(tail, '\n');
      assert InsertAt(b) - 1 == o + idx + 1 + closeEnd;
      DropTwice(b, o, idx + 1, closeEnd);
    }
  }

  lemma FoundByte(s: string, c: char)
    ensures IndexByte(s, c) >= 0 ==> s[IndexByte(s, c)] == c
  {
  }

  lemma DropTwice(s: string, i: nat, j: nat, k: nat)
    requires i + j + k < |s|
    ensures s[i..][j..][k] == s[i + j + k]
  {
    assert s[i..][j..][k] == s[i..][j + k];
  }

  lemma RenderIsOneStamp(blob: string)
    requires '\n' !in blob
    ensures '\n' !in Render(blob) && MatchEnd(Render(blob)) == |Render(blob)|
  {
    var s := Render(blob);
    var p := |BEGIN| + 1 + |blob|;
    assert s == (BEGIN + " ") + (blob + " " + END);
    assert '\n' !in BEGIN + " " && '\n' !in " " + END;
    assert s == (BEGIN + " ") + blob + (" " + END);
    assert s[p..] == " " + END;
    assert EndsAt(s, p);
    var last := LastEnd(s, |BEGIN| + 1, |s|);
    assert last >= p;
    assert |s[last..]| >= |END| + 1;
  }

  /** Inserting a line at a line start. */
  lemma LinesInsert(b: string, at: nat, stamp: string) returns (k: nat)
    requires at <= |b| && (at == 0 || b[at - 1] == '\n') && '\n' !in stamp
    ensures k < |Lines(b)|
    ensures Lines(b[..at] + stamp + "\n" + b[at..]) == Lines(b)[..k] + [stamp] + Lines(b)[k..]
  {
    hide Lines;
    var a, c := b[..at], b[at..];
    var whole := a + stamp + "\n" + c;
    assert whole == a + (stamp + "\n" + c) && b == a + c;
    LinesCons(stamp, c);
    if at == 0 {
      k := 0;
      assert a == "" && whole == stamp + "\n" + c && c == b;
      assert Lines(b)[..0] == [] && Lines(b)[0..] == Lines(b);
    } else {
      LinesSplitAtBoundary(a, c);
      LinesSplitAtBoundary(a, stamp + "\n" + c);
      var init := Lines(a)[..|Lines(a)| - 1];
      k := |init|;
      assert Lines(b) == init + Lines(c);
      assert Lines(b)[..k] == init && Lines(b)[k..] == Lines(c);
      assert init + ([stamp] + Lines(c)) == init + [stamp] + Lines(c);
    }
  }

  lemma StampFirst(stamp: string, lines: seq<string>)
    requires lines != [] && MatchEnd(stamp) == |stamp|
    ensures StripLines([stamp] + lines) == StripLines(lines)
  {
    hide MatchEnd;
    assert ([stamp] + lines)[1..] == lines;
    assert StripLines([stamp] + lines) == [] + StripLines(lines);
  }

  lemma InsertedStampStrips(lines: seq<string>, k: nat, stamp: string)
    requires StampFree(lines) && k < |lines| && MatchEnd(stamp) == |stamp|
    ensures StripLines(lines[..k] + [stamp] + lines[k..]) == lines
  {
    hide MatchEnd, StripLines;
    NothingToStrip();
    var a, b := lines[..k], lines[k..];
    assert forall l :: l in a ==> l in lines;
    assert forall l :: l in b ==> l in lines;
    FreeStaysAsItIs(a, [stamp] + b);
    FreeStaysAsItIs(b, []);
    assert b + [] == b && a + b == lines;
    assert a + [stamp] + b == a + ([stamp] + b);
    StampFirst(stamp, b);
  }

  /** Stripping what was just injected gives back the stripped body, whatever the body and its old
      stamps. */
  lemma StripUndoesInject(body: string, blob: string) returns (k: nat)
    requires '\n' !in blob
    ensures Strip(Inject(body, Render(blob))) == Strip(body)
    ensures k < |Lines(Strip(body))|
    ensures Lines(Inject(body, Render(blob))) == Lines(Strip(body))[..k] + [Render(blob)] + Lines(Strip(body))[k..]
  {
    hide StripLines, MatchEnd, InsertAt, Lines, Render, StampFree, Join;
    var b, stamp := Strip(body), Render(blob);
    StripIsIdempotent(body);
    InsertsAtLineStart(b);
    RenderIsOneStamp(blob);
    k := LinesInsert(b, InsertAt(b), stamp);
    InsertedStampStrips(Lines(b), k, stamp);
    JoinLines(b);
  }

  /** Publishing replaces: injecting one stamp and then another is injecting the other alone. */
  lemma LastStampWins(body: string, first: string, second: string)
    requires '\n' !in first && '\n' !in second
    ensures Inject(Inject(body, Render(first)), Render(second)) == Inject(body, Render(second))
  {
    hide Strip, Render, InsertAt;
    var _ := StripUndoesInject(body, first);
  }

  /** The published body has exactly one stamp line, the new one. */
  lemma ExactlyOneStamp(body: string, blob: string)
    requires '\n' !in blob
    ensures var lines := Lines(Inject(body, Render(blob)));
      exists k :: 0 <= k < |lines| && lines[k] == Render(blob)
        && forall i :: 0 <= i < |lines| ==> (IsStamped(lines[i]) <==> i == k)
  {
    hide Strip, Render, MatchEnd, InsertAt, Lines, Inject;
    var lines := Lines(Inject(body, Render(blob)));
    var free := Lines(Strip(body));
    var k := StripUndoesInject(body, blob);
    StripIsIdempotent(body);
    RenderIsOneStamp(blob);
    assert lines[k] == Render(blob);
    forall i | 0 <= i < |lines| ensures IsStamped(lines[i]) <==> i == k {
      if i < k {
        assert lines[i] == free[i];
      } else if i > k {
        assert lines[i] == free[i - 1];
      }
    }
  }

  /** In front of `front` there is no line that starts with three dashes, but for its first. */
  ghost predicate NoFence(front: string) {
    forall k :: 0 <= k < |front| ==> !("\n---" <= (front + "\n---")[k..])
  }

  lemma FenceIsFirst(front: string, rest: string)
    requires NoFence(front)
    ensures Index(front + "\n---" + rest, "\n---") == |front|
  {
    var s, head := front + "\n---" + rest, front + "\n---";
    assert s[|front|..] == "\n---" + rest;
    forall k | 0 <= k < |front| ensures !("\n---" <= s[k..]) {
      assert !("\n---" <= head[k..]);
      assert s[k..k + 4] == head[k..k + 4];
      assert head[k..][..4] == head[k..k + 4] && s[k..][..4] == s[k..k + 4];
    }
    IndexIsFirst(s, "\n---", |front|);
  }

  lemma AfterOpening(open: string, rest: string)
    requires open == "---\n" || open == "---\r\n"
    ensures var b := open + rest;
      (HasPrefix(b, "---\n") || HasPrefix(b, "---\r\n")) && IndexByte(b, '\n') + 1 == |open| && b[|open|..] == rest
  {
    var b := open + rest;
    assert b[..|open|] == open;
    IndexByteIs(b, '\n', |open| - 1);
  }

  lemma InsertAtFence(open: string, front: string, tail: string, rest: string)
    requires open == "---\n" || open == "---\r\n"
    requires NoFence(front) && '\n' !in tail
    ensures InsertAt(open + (front + "\n---" + (tail + "\n" + rest))) == |open| + |front| + 4 + |tail| + 1
    ensures InsertAt(open + (front + "\n---" + tail)) == 0
  {
    hide Index, IndexFrom, IndexByte, HasPrefix, NoFence;
    AfterFence(open, front, tail + "\n" + rest);
    IndexByteIs("---" + (tail + "\n" + rest), '\n', 3 + |tail|);
    AfterFence(open, front, tail);
    NoByte("---" + tail, '\n');
  }

  lemma AfterFence(open: string, front: string, rest: string)
    requires open == "---\n" || open == "---\r\n"
    requires NoFence(front)
    ensures var b := open + (front + "\n---" + rest);
      var closeEnd := IndexByte("---" + rest, '\n');
      InsertAt(b) == if closeEnd < 0 then 0 else |open| + |front| + 1 + closeEnd + 1
  {
    hide Index, IndexByte, HasPrefix, NoFence;
    var s := front + "\n---" + rest;
    AfterOpening(open, s);
    FenceIsFirst(front, rest);
    assert s[|front| + 1..] == "---" + rest;
  }

  lemma NoByte(s: string, c: char)
    requires c !in s
    ensures IndexByte(s, c) == -1
  {
  }

  lemma FreeTextStays(b: string)
    requires StampFree(Lines(b))
    ensures Strip(b) == b
  {
    hide StripLines, Lines, StampFree, Join;
    FreeStaysAsItIs(Lines(b), []);
    assert Lines(b) + [] == Lines(b) && StripLines([]) == [] by { NothingToStrip(); }
    JoinLines(b);
  }

  /** The stamp goes on a line of its own right after the one that closes the frontmatter: the first that
      starts with three dashes, not counting the opening line and the line after it. */
  lemma StampGoesAfterFrontmatter(open: string, front: string, tail: string, rest: string, blob: string)
    requires open == "---\n" || open == "---\r\n"
    requires NoFence(front) && '\n' !in tail
    requires StampFree(Lines(open + (front + "\n---" + (tail + "\n" + rest))))
    ensures Inject(open + (front + "\n---" + (tail + "\n" + rest)), Render(blob)) ==
      open + front + "\n---" + tail + "\n"
        + "<!-- satellites-library:begin " + blob + " satellites-library:end -->\n" + rest
  {
    hide Strip, InsertAt, StampFree, Lines, NoFence, Render, Inject;
    var head := open + front + "\n---" + tail + "\n";
    var b := open + (front + "\n---" + (tail + "\n" + rest));
    FreeTextStays(b);
    InsertAtFence(open, front, tail, rest);
    assert b == head + rest;
    assert b[..|head|] == head && b[|head|..] == rest;
    RenderLine(blob);
    Publishes(b, Render(blob));
    Grouped(head, Render(blob), "<!-- satellites-library:begin ", blob, " satellites-library:end -->\n", rest);
  }

  lemma Grouped(head: string, stamp: string, lead: string, blob: string, end: string, rest: string)
    requires stamp + "\n" == lead + blob + end
    ensures head + stamp + "\n" + rest == head + lead + blob + end + rest
  {
    assert head + stamp + "\n" + rest == head + (stamp + "\n") + rest;
    assert head + (lead + blob + end) + rest == head + lead + blob + end + rest;
  }

  lemma Publishes(body: string, stamp: string)
    ensures var b := Strip(body); Inject(body, stamp) == b[..InsertAt(b)] + stamp + "\n" + b[InsertAt(b)..]
  {
    hide Strip, InsertAt;
  }

  /** And on top of everything when there is no such line, or no line after it. */
  lemma StampGoesOnTop(open: string, front: string, tail: string, b: string, blob: string)
    requires StampFree(Lines(b))
    requires
      || (!("---\n" <= b) && !("---\r\n" <= b))
      || ((open == "---\n" || open == "---\r\n") && b == open + front
          && forall k :: 0 <= k <= |front| ==> !("\n---" <= front[k..]))
      || ((open == "---\n" || open == "---\r\n") && b == open + (front + "\n---" + tail)
          && NoFence(front) && '\n' !in tail)
    ensures Inject(b, Render(blob)) == "<!-- satellites-library:begin " + blob + " satellites-library:end -->\n" + b
  {
    hide Strip, StampFree, Lines, NoFence, InsertAt, Render, Inject;
    FreeTextStays(b);
    if !("---\n" <= b) && !("---\r\n" <= b) {
      NotOpened(b);
    } else if b == open + front && forall k :: 0 <= k <= |front| ==> !("\n---" <= front[k..]) {
      NeverClosed(open, front);
    } else {
      InsertAtFence(open, front, tail, "");
    }
    Publishes(b, Render(blob));
    RenderLine(blob);
    AtTop(b, Render(blob));
  }

  lemma RenderLine(blob: string)
    ensures Render(blob) + "\n" == "<!-- satellites-library:begin " + blob + " satellites-library:end -->\n"
  {
  }

  lemma AtTop(b: string, stamp: string)
    ensures b[..0] + stamp + "\n" + b[0..] == (stamp + "\n") + b
  {
  }

  lemma NotOpened(b: string)
    requires !("---\n" <= b) && !("---\r\n" <= b)
    ensures InsertAt(b) == 0
  {
  }

  lemma NeverClosed(open: string, front: string)
    requires open == "---\n" || open == "---\r\n"
    requires forall k :: 0 <= k <= |front| ==> !("\n---" <= front[k..])
    ensures InsertAt(open + front) == 0
  {
    hide IndexByte, HasPrefix;
    AfterOpening(open, front);
    assert Index(front, "\n---") < 0;
  }

  /** A stamp in front of other text is taken off that text, and the line with it when it is nothing else. */
  lemma StripsOneStamp(a: seq<string>, blob: string, tail: string, b: seq<string>)
    requires StampFree(a + b) && '\n' !in blob
    requires forall k :: 0 <= k <= |tail| ==> !(" satellites-library:end -->" <= tail[k..])
    ensures StripLines(a + [Render(blob) + tail] + b) == a + (if tail == "" && b != [] then [] else [tail]) + b
  {
    hide MatchEnd, StripLines;
    var line := Render(blob) + tail;
    assert forall l :: l in a || l in b ==> l in a + b;
    assert a + [line] + b == a + ([line] + b);
    FreeStaysAsItIs(a, [line] + b);
    FreeStaysAsItIs(b, []);
    NothingToStrip();
    assert b + [] == b;
    TailedStamp(blob, tail);
    StripFirstLine(line, b);
    assert line[|Render(blob)|..] == tail;
    assert a + ((if tail == "" && b != [] then [] else [tail]) + b)
      == a + (if tail == "" && b != [] then [] else [tail]) + b;
  }

  lemma StripFirstLine(line: string, b: seq<string>)
    requires IsStamped(line)
    ensures StripLines([line] + b)
      == (if MatchEnd(line) == |line| && b != [] then [] else [line[MatchEnd(line)..]]) + StripLines(b)
  {
    hide MatchEnd;
    assert ([line] + b)[1..] == b;
  }

  lemma TailedStamp(blob: string, tail: string)
    requires forall k :: 0 <= k <= |tail| ==> !(" satellites-library:end -->" <= tail[k..])
    ensures MatchEnd(Render(blob) + tail) == |Render(blob)|
  {
    hide MatchEnd;
    var s, lead, e := Render(blob) + tail, "<!-- satellites-library:begin " + blob, " satellites-library:end -->";
    assert s == lead + e + tail && |Render(blob)| == |lead| + |e|;
    StampedExactly(s);
    EndMarker();
    LastSpan(s, lead, e, tail);
  }

  lemma EndMarker()
    ensures var e := " satellites-library:end -->"; |e| == 27 && e[26] == '>' && forall k :: 0 <= k < 26 ==> e[k] != '>'
  {
    var e := " satellites-library:end -->";
    assert '>' !in " satellites-library:end --" && e == " satellites-library:end --" + ">";
  }

  lemma LastSpan(s: string, lead: string, e: string, tail: string)
    requires "<!-- satellites-library:begin " <= lead && e == " satellites-library:end -->" && s == lead + e + tail
    requires |e| == 27 && e[26] == '>' && forall k :: 0 <= k < 26 ==> e[k] != '>'
    requires forall k :: 0 <= k <= |tail| ==> !(e <= tail[k..])
    ensures StampSpan(s, |lead|) && forall j :: |lead| < j <= |s| ==> !StampSpan(s, j)
  {
    assert s[|lead|..] == e + tail;
    forall j | |lead| < j <= |s| ensures !(e <= s[j..]) {
      if e <= s[j..] {
        EndsInTail(lead, e, tail, j);
      }
    }
  }

  /** Two end markers do not overlap: only their last byte is a `>`. */
  lemma EndsInTail(lead: string, e: string, tail: string, j: nat)
    requires |e| == 27 && e[26] == '>' && forall k :: 0 <= k < 26 ==> e[k] != '>'
    requires |lead| < j <= |lead + e + tail| && e <= (lead + e + tail)[j..]
    ensures |lead| + 27 <= j && e <= tail[j - |lead| - 27..]
  {
    var s, p := lead + e + tail, |lead|;
    assert s[p + 26] == '>';
    assert forall i :: j <= i < j + 27 ==> s[i] == s[j..][i - j] == e[i - j];
    assert j >= p + 27;
    assert s[j..] == tail[j - p - 27..];
  }

  /** Adopting a published skill gives back the author's body exactly, when the author wrote no stamp. */
  lemma AdoptGivesBackBody(body: string, blob: string)
    requires '\n' !in blob && StampFree(Lines(body))
    ensures Strip(Inject(body, Render(blob))) == body
  {
    hide StripLines, Render, InsertAt, Lines, StampFree, Inject, Join;
    var _ := StripUndoesInject(body, blob);
    FreeStaysAsItIs(Lines(body), []);
    assert Lines(body) + [] == Lines(body) && StripLines([]) == [] by { NothingToStrip(); }
    JoinLines(body);
  }
}
