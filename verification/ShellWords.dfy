/** The words of a command line and what the scanners do to them
    (internal/cli/cmd_hook_commitgate.go). */
module ShellWords {
  import opened Text
  import opened ShellQuotes

  function SkipSpaces(s: string, i: nat): (j: nat)
    requires i <= |s|
    ensures i <= j <= |s| && (j < |s| ==> !IsSpace(s[j]))
    decreases |s| - i
  {
    if i < |s| && IsSpace(s[i]) then SkipSpaces(s, i + 1) else i
  }

  function FieldEnd(s: string, i: nat): (j: nat)
    requires i <= |s|
    ensures i <= j <= |s| && (i < |s| && !IsSpace(s[i]) ==> i < j)
    decreases |s| - i
  {
    if i < |s| && !IsSpace(s[i]) then FieldEnd(s, i + 1) else i
  }

  /** strings.Fields of the text from `i` on. */
  function FieldsFrom(s: string, i: nat): seq<string>
    requires i <= |s|
    decreases |s| - i
  {
    var a := SkipSpaces(s, i);
    if a == |s| then [] else [s[a..FieldEnd(s, a)]] + FieldsFrom(s, FieldEnd(s, a))
  }

  function Fields(s: string): seq<string> {
    FieldsFrom(s, 0)
  }

  lemma {:induction false} SpacesSkipped(s: string, i: nat, k: nat)
    requires i <= k <= |s| && (forall j :: i <= j < k ==> IsSpace(s[j])) && (k < |s| ==> !IsSpace(s[k]))
    ensures SkipSpaces(s, i) == k
    decreases k - i
  {
    if i < k {
      SpacesSkipped(s, i + 1, k);
    }
  }

  lemma {:induction false} FieldRead(s: string, i: nat, k: nat)
    requires i <= k <= |s| && (forall j :: i <= j < k ==> !IsSpace(s[j])) && (k < |s| ==> IsSpace(s[k]))
    ensures FieldEnd(s, i) == k
    decreases k - i
  {
    if i < k {
      FieldRead(s, i + 1, k);
    }
  }

  /** A word: not empty, and no white space in it. */
  predicate IsWord(w: string) {
    w != "" && forall c :: c in w ==> c !in " \t\n\U{0B}\U{0C}\r"
  }

  /** Words with white space before each of them, and at the end. */
  function Spaced(gaps: seq<string>, words: seq<string>): string
    requires |gaps| == |words| + 1
  {
    if words == [] then gaps[0] else gaps[0] + words[0] + Spaced(gaps[1..], words[1..])
  }

  /** White space, and some of it between two words. */
  predicate AreGaps(gaps: seq<string>) {
    && (forall g :: g in gaps ==> forall c :: c in g ==> c in " \t\n\U{0B}\U{0C}\r")
    && (forall k :: 0 < k < |gaps| - 1 ==> gaps[k] != "")
  }

  lemma FieldsStep(s: string, i: nat, a: nat, e: nat)
    requires i <= a < e <= |s| && (forall j :: i <= j < a ==> IsSpace(s[j]))
    requires (forall j :: a <= j < e ==> !IsSpace(s[j])) && (e < |s| ==> IsSpace(s[e]))
    ensures FieldsFrom(s, i) == [s[a..e]] + FieldsFrom(s, e)
  {
    hide SkipSpaces, FieldEnd, IsSpace;
    SpacesSkipped(s, i, a);
    FieldRead(s, a, e);
  }

  lemma FieldsOver(s: string, i: nat)
    requires i <= |s| && forall j :: i <= j < |s| ==> IsSpace(s[j])
    ensures FieldsFrom(s, i) == []
  {
    hide SkipSpaces, FieldEnd, IsSpace;
    SpacesSkipped(s, i, |s|);
  }

  /** What comes after a word: nothing, or white space. */
  lemma GapAhead(gaps: seq<string>, words: seq<string>)
    requires |gaps| == |words| + 1 && words != [] && AreGaps(gaps)
    ensures AreGaps(gaps[1..])
    ensures var rest := Spaced(gaps[1..], words[1..]); rest == "" || IsSpace(rest[0])
  {
    AllWhite();
    var rest := Spaced(gaps[1..], words[1..]);
    assert gaps[1] in gaps && forall g :: g in gaps[1..] ==> g in gaps;
    assert |words| > 1 ==> gaps[1] != "";
    if gaps[1] != "" {
      assert rest[0] == gaps[1][0] && gaps[1][0] in gaps[1];
    }
  }

  lemma FirstWord(before: string, g: string, w: string, rest: string)
    requires (forall c :: c in g ==> IsSpace(c)) && w != "" && (forall c :: c in w ==> !IsSpace(c))
    requires rest == "" || IsSpace(rest[0])
    ensures var s := before + g + w + rest;
      FieldsFrom(s, |before|) == [w] + FieldsFrom(s, |before + g + w|)
  {
    hide FieldsFrom, IsSpace;
    var s, a := before + g + w + rest, |before| + |g|;
    var e := a + |w|;
    assert forall j :: |before| <= j < a ==> s[j] == g[j - |before|] && g[j - |before|] in g;
    assert forall j :: a <= j < e ==> s[j] == w[j - a] && w[j - a] in w;
    assert e < |s| ==> s[e] == rest[0];
    assert s[a..e] == w;
    FieldsStep(s, |before|, a, e);
  }

  lemma {:induction false} FieldsFromSpaced(before: string, gaps: seq<string>, words: seq<string>)
    requires |gaps| == |words| + 1 && AreGaps(gaps) && forall w :: w in words ==> IsWord(w)
    ensures FieldsFrom(before + Spaced(gaps, words), |before|) == words
    decreases |words|
  {
    hide FieldsFrom, IsSpace, AreGaps;
    AllWhite();
    var s, g := before + Spaced(gaps, words), gaps[0];
    GapIsWhite(gaps);
    if words == [] {
      FieldsOver(s, |before|);
    } else {
      var w, rest := words[0], Spaced(gaps[1..], words[1..]);
      assert w in words && IsWord(w) && forall v :: v in words[1..] ==> v in words;
      GapAhead(gaps, words);
      assert s == before + g + w + rest;
      FirstWord(before, g, w, rest);
      FieldsFromSpaced(before + g + w, gaps[1..], words[1..]);
      assert [w] + words[1..] == words;
    }
  }

  lemma GapIsWhite(gaps: seq<string>)
    requires gaps != [] && AreGaps(gaps)
    ensures forall c :: c in gaps[0] ==> IsSpace(c)
  {
    AllWhite();
    assert gaps[0] in gaps;
  }

  /** Splitting into words undoes printing them with white space between. */
  lemma FieldsOfSpaced(gaps: seq<string>, words: seq<string>)
    requires |gaps| == |words| + 1 && AreGaps(gaps) && forall w :: w in words ==> IsWord(w)
    ensures Fields(Spaced(gaps, words)) == words
  {
    hide FieldsFrom, AreGaps, IsWord;
    FieldsFromSpaced("", gaps, words);
    assert "" + Spaced(gaps, words) == Spaced(gaps, words);
  }

  /** baseName: the text after the last slash. */
  function BaseName(s: string): (r: string)
    ensures '/' !in r && |r| <= |s|
    decreases |s|
  {
    if '/' !in s then s else BaseName(s[IndexByte(s, '/') + 1..])
  }

  lemma BaseNameStep(s: string, i: nat)
    requires i < |s| && s[i] == '/' && forall j :: 0 <= j < i ==> s[j] != '/'
    ensures BaseName(s) == BaseName(s[i + 1..])
  {
    hide IndexFrom;
    IndexByteIs(s, '/', i);
  }

  lemma NoDirectory(base: string)
    requires '/' !in base
    ensures BaseName(base) == base
  {
  }

  /** Whatever directory stands before it, the base name is what follows the last slash. */
  lemma {:induction false} BaseNameIs(dir: string, base: string)
    requires '/' !in base
    ensures BaseName(base) == base && BaseName(dir + "/" + base) == base
    decreases |dir|
  {
    hide BaseName, IndexFrom;
    var s := dir + "/" + base;
    NoDirectory(base);
    if '/' in dir {
      var i := IndexByte(dir, '/');
      FoundSlash(dir);
      assert forall j :: 0 <= j <= i ==> s[j] == dir[j];
      BaseNameStep(s, i);
      assert s[i + 1..] == dir[i + 1..] + "/" + base;
      BaseNameIs(dir[i + 1..], base);
    } else {
      assert forall j :: 0 <= j < |dir| ==> s[j] == dir[j] && dir[j] in dir;
      BaseNameStep(s, |dir|);
      assert s[|dir| + 1..] == base;
    }
  }

  lemma FoundSlash(s: string)
    requires '/' in s
    ensures var i := IndexByte(s, '/'); 0 <= i < |s| && s[i] == '/' && forall j :: 0 <= j < i ==> s[j] != '/'
  {
  }

  /** unquoteArg: strip one layer of matching quotes. */
  function UnquoteArg(s: string): string {
    if |s| >= 2 && IsQuote(s[0]) && s[|s| - 1] == s[0] then s[1..|s| - 1] else s
  }

  function ToLower(s: string): string {
    seq(|s|, i requires 0 <= i < |s| => if 'A' <= s[i] <= 'Z' then (s[i] as int + 32) as char else s[i])
  }

  /** Lower-casing comes to a word exactly for those that spell it in letters of either case. */
  lemma LowersTo(s: string, lower: string, upper: string)
    requires |lower| == |upper|
    requires forall i :: 0 <= i < |lower| ==> 'a' <= lower[i] <= 'z' && upper[i] as int == lower[i] as int - 32
    ensures ToLower(s) == lower <==>
      |s| == |lower| && forall i :: 0 <= i < |s| ==> s[i] == lower[i] || s[i] == upper[i]
  {
    var r := ToLower(s);
    if ToLower(s) == lower {
      forall i | 0 <= i < |s| ensures s[i] == lower[i] || s[i] == upper[i] {
        assert r[i] == lower[i];
      }
    }
  }

  /** One layer of quotes comes off, and only a matching pair. */
  lemma UnquoteArgIs(x: string)
    ensures UnquoteArg("'" + x + "'") == x && UnquoteArg("\"" + x + "\"") == x
    ensures |x| < 2 || x[0] != x[|x| - 1] || (x[0] != '\'' && x[0] != '"') ==> UnquoteArg(x) == x
  {
    var s, d := "'" + x + "'", "\"" + x + "\"";
    assert s[1..|s| - 1] == x && d[1..|d| - 1] == x;
  }
}
