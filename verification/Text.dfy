/** Byte-string helpers shared by the parsers: the Go `strings` calls they make, each with the
    contract its callers rely on.  A `string` here is a Go string: one `char` per byte. */
module Text {

  datatype Option<+T> = None | Some(value: T)

  predicate HasPrefix(s: string, prefix: string) {
    prefix <= s
  }

  /** The first occurrence of `c` at or after `from`, or -1. */
  function IndexFrom(s: string, c: char, from: nat): (i: int)
    requires from <= |s|
    ensures i == -1 || from <= i < |s|
    ensures 0 <= i ==> s[i] == c
    ensures forall j :: from <= j < (if i < 0 then |s| else i) ==> s[j] != c
    decreases |s| - from
  {
    if from == |s| then -1 else if s[from] == c then from else IndexFrom(s, c, from + 1)
  }

  /** strings.IndexByte: the first occurrence, or -1. */
  function IndexByte(s: string, c: char): (i: int)
    ensures -1 <= i < |s|
  {
    IndexFrom(s, c, 0)
  }

  function IndexSubFrom(s: string, sub: string, from: nat): (i: int)
    requires from <= |s|
    ensures i == -1 || from <= i <= |s|
    ensures 0 <= i ==> sub <= s[i..]
    ensures forall j {:trigger s[j..]} :: from <= j <= |s| && (i < 0 || j < i) ==> !(sub <= s[j..])
    decreases |s| - from
  {
    if sub <= s[from..] then from else if from == |s| then -1 else IndexSubFrom(s, sub, from + 1)
  }

  /** strings.Index: the first occurrence of a substring, or -1. */
  function Index(s: string, sub: string): (i: int)
    ensures -1 <= i <= |s|
    ensures 0 <= i ==> sub <= s[i..]
    ensures forall j {:trigger s[j..]} :: 0 <= j <= |s| && (i < 0 || j < i) ==> !(sub <= s[j..])
  {
    IndexSubFrom(s, sub, 0)
  }

  /** The occurrence found is the only one with no earlier occurrence. */
  lemma IndexIsFirst(s: string, sub: string, k: nat)
    requires k <= |s| && sub <= s[k..]
    requires forall j :: 0 <= j < k ==> !(sub <= s[j..])
    ensures Index(s, sub) == k
  {
  }

  /** ASCII white space, as strings.TrimSpace and strings.Fields see it on bytes below 0x80. */
  predicate IsSpace(c: char) {
    c == ' ' || '\t' <= c <= '\r'
  }

  function TrimLeftSpace(s: string): string {
    if s != "" && IsSpace(s[0]) then TrimLeftSpace(s[1..]) else s
  }

  function TrimRightSpace(s: string): string {
    if s != "" && IsSpace(s[|s| - 1]) then TrimRightSpace(s[..|s| - 1]) else s
  }

  lemma {:induction false} TrimmedLeft(s: string)
    ensures var r := TrimLeftSpace(s);
      |r| <= |s| && r == s[|s| - |r|..] && (r == "" || !IsSpace(r[0]))
  {
    if s != "" && IsSpace(s[0]) {
      TrimmedLeft(s[1..]);
    }
  }

  lemma {:induction false} TrimmedRight(s: string)
    ensures var r := TrimRightSpace(s);
      r <= s && (r == "" || !IsSpace(r[|r| - 1]))
  {
    if s != "" && IsSpace(s[|s| - 1]) {
      TrimmedRight(s[..|s| - 1]);
    }
  }

  /** strings.TrimSpace. */
  function TrimSpace(s: string): string {
    TrimRightSpace(TrimLeftSpace(s))
  }

  /** Padding a text that neither starts nor ends in white space is undone by TrimSpace. */
  lemma TrimPadded(s: string)
    requires s != "" && !IsSpace(s[0]) && !IsSpace(s[|s| - 1])
    ensures TrimSpace(" " + s + " ") == s
  {
    var padded := " " + s + " ";
    assert padded[1..] == s + " ";
    assert TrimLeftSpace(s + " ") == s + " ";
    assert (s + " ")[..|s|] == s && TrimRightSpace(s) == s;
  }

  predicate Trimmed(s: string) {
    s != "" ==> !IsSpace(s[0]) && !IsSpace(s[|s| - 1])
  }

  lemma TrimIsTrimmed(s: string)
    ensures Trimmed(TrimSpace(s)) && |TrimSpace(s)| <= |s|
    ensures TrimSpace(s) == s <==> Trimmed(s)
  {
    var l := TrimLeftSpace(s);
    var r := TrimRightSpace(l);
    TrimmedLeft(s);
    TrimmedRight(l);
    if r != "" {
      assert r[0] == l[0];
    }
    if r == s || Trimmed(s) {
      assert l == s;
    }
  }

  lemma {:induction false} TrimLeftIs(left: string, s: string)
    requires forall c :: c in left ==> IsSpace(c)
    requires s == "" || !IsSpace(s[0])
    ensures TrimLeftSpace(left + s) == s
    decreases |left|
  {
    if left == "" {
      assert left + s == s;
    } else {
      assert left[0] in left && forall c :: c in left[1..] ==> c in left;
      assert (left + s)[1..] == left[1..] + s;
      TrimLeftIs(left[1..], s);
    }
  }

  lemma {:induction false} TrimRightIs(s: string, right: string)
    requires forall c :: c in right ==> IsSpace(c)
    requires s == "" || !IsSpace(s[|s| - 1])
    ensures TrimRightSpace(s + right) == s
    decreases |right|
  {
    if right == "" {
      assert s + right == s;
    } else {
      var n := |right| - 1;
      assert right[n] in right && forall c :: c in right[..n] ==> c in right;
      assert (s + right)[..|s| + n] == s + right[..n];
      TrimRightIs(s, right[..n]);
    }
  }

  /** TrimSpace gives back the text between any runs of the six ASCII white-space bytes. */
  lemma TrimSpaceIs(left: string, s: string, right: string)
    requires forall c :: c in left + right ==> c in " \t\n\U{0B}\U{0C}\r"
    requires s == "" || (s[0] !in " \t\n\U{0B}\U{0C}\r" && s[|s| - 1] !in " \t\n\U{0B}\U{0C}\r")
    ensures TrimSpace(left + s + right) == s
  {
    hide TrimLeftSpace, TrimRightSpace, IsSpace;
    AllWhite();
    assert forall c :: c in left || c in right ==> c in left + right;
    if s == "" {
      assert left + s + right == (left + right) + "";
      TrimLeftIs(left + right, "");
      TrimRightIs("", "");
      assert "" + "" == "";
    } else {
      assert left + s + right == left + (s + right);
      TrimLeftIs(left, s + right);
      TrimRightIs(s, right);
    }
  }

  lemma AllWhite()
    ensures forall c {:trigger IsSpace(c)} :: IsSpace(c) <==> c in " \t\n\U{0B}\U{0C}\r"
  {
    hide IsSpace;
    forall c: char ensures IsSpace(c) <==> c in " \t\n\U{0B}\U{0C}\r" {
      WhiteIs(c);
    }
  }

  lemma WhiteIs(c: char)
    ensures IsSpace(c) <==> c in " \t\n\U{0B}\U{0C}\r"
  {
    var white := " \t\n\U{0B}\U{0C}\r";
    assert white[0] == ' ' && white[1] == '\t' && white[2] == '\n' && white[3] as int == 11 && white[4] as int == 12
      && white[5] == '\r';
    if IsSpace(c) && c != ' ' {
      assert c == white[c as int - 8];
    }
  }

  lemma SliceOfSlice(s: string, at: nat, n: nat, lo: nat, hi: nat)
    requires at + n <= |s| && lo <= hi <= n
    ensures s[at..at + n][lo..hi] == s[at + lo..at + hi]
  {
    var a, b := s[at..at + n][lo..hi], s[at + lo..at + hi];
    assert |a| == |b| && forall i :: 0 <= i < |a| ==> a[i] == b[i];
  }

  /** strings.Split(s, "\n"). */
  function Lines(s: string): (ls: seq<string>)
    ensures |ls| > 0
    ensures forall l :: l in ls ==> '\n' !in l
  {
    var i := IndexByte(s, '\n');
    if i < 0 then [s] else [s[..i]] + Lines(s[i + 1..])
  }

  /** strings.Join(ls, "\n"). */
  function Join(ls: seq<string>): string {
    if |ls| == 0 then "" else if |ls| == 1 then ls[0] else ls[0] + "\n" + Join(ls[1..])
  }

  lemma IndexByteIs(s: string, c: char, k: nat)
    requires k < |s| && s[k] == c && forall j :: 0 <= j < k ==> s[j] != c
    ensures IndexByte(s, c) == k
  {
    assert IndexByte(s, c) >= 0;
  }

  /** The first line of a text whose first newline is known. */
  lemma LinesCons(l: string, rest: string)
    requires '\n' !in l
    ensures Lines(l + "\n" + rest) == [l] + Lines(rest)
  {
    var s := l + "\n" + rest;
    assert s[..|l|] == l && s[|l| + 1..] == rest;
    IndexByteIs(s, '\n', |l|);
  }

  lemma JoinCons(l: string, ls: seq<string>)
    requires |ls| > 0
    ensures Join([l] + ls) == l + "\n" + Join(ls)
  {
    assert ([l] + ls)[1..] == ls;
  }

  lemma JoinOne(l: string)
    ensures Join([l]) == l
  {
  }

  lemma {:induction false} JoinLines(s: string)
    ensures Join(Lines(s)) == s
  {
    var i := IndexByte(s, '\n');
    if i >= 0 {
      var first, rest := s[..i], s[i + 1..];
      JoinLines(rest);
      JoinCons(first, Lines(rest));
      assert s == first + "\n" + rest;
    }
  }

  lemma {:induction false} LinesJoin(ls: seq<string>)
    requires |ls| > 0
    requires forall l :: l in ls ==> '\n' !in l
    ensures Lines(Join(ls)) == ls
  {
    if |ls| == 1 {
      assert ls[0] in ls;
      assert IndexByte(ls[0], '\n') == -1;
    } else {
      LinesJoin(ls[1..]);
      LinesCons(ls[0], Join(ls[1..]));
    }
  }

  lemma ConsOnInit(first: string, ls: seq<string>, tail: seq<string>)
    requires |ls| > 0
    ensures ([first] + ls)[..|ls|] + tail == [first] + (ls[..|ls| - 1] + tail)
    ensures ([first] + ls)[|ls|] == ls[|ls| - 1]
  {
  }

  /** Splitting a text that is cut right after a newline. */
  lemma {:induction false} LinesSplitAtBoundary(a: string, b: string)
    requires a != "" && a[|a| - 1] == '\n'
    ensures Lines(a + b) == Lines(a)[..|Lines(a)| - 1] + Lines(b)
    ensures Lines(a)[|Lines(a)| - 1] == ""
    decreases |a|
  {
    var i := IndexByte(a, '\n');
    var first, rest := a[..i], a[i + 1..];
    assert Lines(a) == [first] + Lines(rest) && Lines(a + b) == [first] + Lines(rest + b) by {
      assert a == first + "\n" + rest;
      assert a + b == first + "\n" + (rest + b);
      LinesCons(first, rest);
      LinesCons(first, rest + b);
    }
    if rest == "" {
      assert rest + b == b;
      assert Lines(rest) == [""];
    } else {
      LinesSplitAtBoundary(rest, b);
      ConsOnInit(first, Lines(rest), Lines(b));
    }
  }
}
