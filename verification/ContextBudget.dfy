/** The bounded session context: whole parts under a ceiling, the merged resident set, and a cut that
    never splits a rune (internal/cli/cmd_hook_context.go). */
module ContextBudget {

  // ----- boundAlwaysParts ----------------------------------------------------------------------

  /** Parts joined by blank lines; nothing goes before the first text. */
  function JoinParts(parts: seq<string>): string {
    if parts == [] then ""
    else
      var (init, p) := (JoinParts(parts[..|parts| - 1]), parts[|parts| - 1]);
      if init == "" then p else init + "\n\n" + p
  }

  lemma {:induction false} LongerPrefixIsLonger(parts: seq<string>, j: nat, k: nat)
    requires j <= k <= |parts|
    ensures |JoinParts(parts[..j])| <= |JoinParts(parts[..k])|
    decreases k
  {
    if j < k {
      LongerPrefixIsLonger(parts, j, k - 1);
      assert parts[..k][..k - 1] == parts[..k - 1];
    }
  }

  /** The first k parts are the most that fit. */
  ghost predicate LongestFit(parts: seq<string>, ceiling: int, k: nat) {
    && k <= |parts|
    && (k > 0 ==> |JoinParts(parts[..k])| <= ceiling)
    && (forall j :: k < j <= |parts| ==> |JoinParts(parts[..j])| > ceiling)
  }

  /** boundAlwaysParts: the longest prefix of whole parts whose join fits the ceiling, and whether any
      part was dropped. */
  method BoundAlwaysParts(parts: seq<string>, ceiling: int) returns (joined: string, truncated: bool)
    ensures exists k: nat ::
      LongestFit(parts, ceiling, k) && joined == JoinParts(parts[..k]) && (truncated <==> k < |parts|)
  {
    joined, truncated := "", false;
    var i := 0;
    while i < |parts| && !truncated
      invariant 0 <= i <= |parts| && joined == JoinParts(parts[..i])
      invariant i > 0 ==> |joined| <= ceiling
      invariant truncated ==> i < |parts| && |JoinParts(parts[..i + 1])| > ceiling
      decreases |parts| - i, !truncated
    {
      assert parts[..i + 1][..i] == parts[..i];
      var sep := if |joined| > 0 then 2 else 0;
      if |joined| + sep + |parts[i]| > ceiling {
        truncated := true;
      } else {
        if i > 0 && |joined| > 0 {
          joined := joined + "\n\n";
        }
        joined := joined + parts[i];
        i := i + 1;
      }
    }
    forall j | i < j <= |parts| ensures |JoinParts(parts[..j])| > ceiling {
      LongerPrefixIsLonger(parts, i + 1, j);
    }
    assert LongestFit(parts, ceiling, i);
  }

  /** The usual join with a separator, for parts none of which is empty. */
  function JoinWith(parts: seq<string>, sep: string): string {
    if parts == [] then "" else if |parts| == 1 then parts[0] else parts[0] + sep + JoinWith(parts[1..], sep)
  }

  lemma {:induction false} JoinWithSnoc(parts: seq<string>, p: string, sep: string)
    requires parts != []
    ensures JoinWith(parts + [p], sep) == JoinWith(parts, sep) + sep + p
    decreases |parts|
  {
    assert (parts + [p])[1..] == parts[1..] + [p];
    if |parts| > 1 {
      JoinWithSnoc(parts[1..], p, sep);
      assert parts[0] + sep + (JoinWith(parts[1..], sep) + sep + p)
        == parts[0] + sep + JoinWith(parts[1..], sep) + sep + p;
    } else {
      assert parts[1..] == [] && parts[1..] + [p] == [p];
    }
  }

  lemma {:induction false} JoinPartsIsBlankLineJoin(parts: seq<string>)
    requires forall p :: p in parts ==> p != ""
    ensures JoinParts(parts) == JoinWith(parts, "\n\n")
    ensures parts != [] ==> JoinParts(parts) != ""
    decreases |parts|
  {
    if parts != [] {
      var init, p := parts[..|parts| - 1], parts[|parts| - 1];
      assert parts == init + [p] && p in parts && forall q :: q in init ==> q in parts;
      JoinPartsIsBlankLineJoin(init);
      if init != [] {
        JoinWithSnoc(init, p, "\n\n");
      }
    }
  }

  // ----- mergeAlwaysItems ----------------------------------------------------------------------

  datatype Item = Item(name: string, scope: string)

  /** The first place of a name in a list, or the list's length. */
  function FirstPlace(items: seq<Item>, name: string): nat {
    if items == [] then 0
    else
      var (init, it) := (items[..|items| - 1], items[|items| - 1]);
      var i := FirstPlace(init, name);
      if i < |init| || it.name == name then i else |items|
  }

  lemma {:induction false} FirstPlaceIsFirst(items: seq<Item>, name: string)
    ensures var i := FirstPlace(items, name);
      && i <= |items| && (i < |items| ==> items[i].name == name)
      && (forall j :: 0 <= j < i ==> items[j].name != name)
    decreases |items|
  {
    if items != [] {
      FirstPlaceIsFirst(items[..|items| - 1], name);
    }
  }

  /** An item is its name's last in a list. */
  predicate IsLatest(items: seq<Item>, x: Item) {
    items != [] &&
    (items[|items| - 1] == x || (items[|items| - 1].name != x.name && IsLatest(items[..|items| - 1], x)))
  }

  ghost predicate LastAt(items: seq<Item>, x: Item, k: int) {
    0 <= k < |items| && items[k] == x && forall j :: k < j < |items| ==> items[j].name != x.name
  }

  lemma {:induction false} LatestHasPlace(items: seq<Item>, x: Item) returns (k: int)
    requires IsLatest(items, x)
    ensures LastAt(items, x, k)
    decreases |items|
  {
    var last := |items| - 1;
    if items[last] == x {
      k := last;
    } else {
      k := LatestHasPlace(items[..last], x);
      assert forall j :: 0 <= j < last ==> items[j] == items[..last][j];
    }
  }

  lemma {:induction false} PlacedIsLatest(items: seq<Item>, x: Item, k: int)
    requires LastAt(items, x, k)
    ensures IsLatest(items, x)
    decreases |items|
  {
    var last := |items| - 1;
    if k < last {
      assert forall j :: 0 <= j < last ==> items[j] == items[..last][j];
      PlacedIsLatest(items[..last], x, k);
    }
  }

  lemma LatestIsLast(items: seq<Item>, x: Item)
    ensures IsLatest(items, x) <==> exists k :: LastAt(items, x, k)
  {
    hide LastAt, IsLatest;
    if IsLatest(items, x) {
      var k := LatestHasPlace(items, x);
    } else if k :| LastAt(items, x, k) {
      PlacedIsLatest(items, x, k);
    }
  }

  ghost predicate IsNamed(items: seq<Item>, name: string) {
    exists i :: 0 <= i < |items| && items[i].name == name
  }

  /** `out` lists every name of `all`, in order of first appearance (so each once), each with its last
      item. */
  ghost predicate IsMerge(all: seq<Item>, out: seq<Item>) {
    && (forall i :: 0 <= i < |out| ==> IsLatest(all, out[i]))
    && (forall k :: 0 <= k < |all| ==> IsNamed(out, all[k].name))
    && (forall i, j :: 0 <= i < j < |out| ==> FirstPlace(all, out[i].name) < FirstPlace(all, out[j].name))
  }

  /** The index map agrees with the slice. */
  ghost predicate IndexOk(out: seq<Item>, idx: map<string, int>) {
    && (forall n :: n in idx ==> 0 <= idx[n] < |out| && out[idx[n]].name == n)
    && (forall i :: 0 <= i < |out| ==> out[i].name in idx && idx[out[i].name] == i)
  }

  /** The inner loop of mergeAlwaysItems over one scope's items. */
  method AddItems(before: seq<Item>, items: seq<Item>, out0: seq<Item>, idx0: map<string, int>)
    returns (out: seq<Item>, idx: map<string, int>)
    requires IsMerge(before, out0) && IndexOk(out0, idx0)
    ensures IsMerge(before + items, out) && IndexOk(out, idx)
  {
    hide IsMerge;
    out, idx := out0, idx0;
    assert before + items[..0] == before;
    for k := 0 to |items|
      invariant IsMerge(before + items[..k], out) && IndexOk(out, idx)
    {
      var it := items[k];
      assert before + items[..k + 1] == before + items[..k] + [it];
      if it.name in idx {
        MergeReplaces(before + items[..k], out, it, idx[it.name]);
        out := out[idx[it.name] := it];  // the later scope wins
      } else {
        assert forall i :: 0 <= i < |out| ==> out[i].name != it.name;
        MergeAppends(before + items[..k], out, it);
        idx := idx[it.name := |out|];
        out := out + [it];
      }
    }
    assert items[..|items|] == items;
  }

  /** One more item at the end of the list. */
  lemma PlacesAfter(all: seq<Item>, it: Item, name: string)
    ensures FirstPlace(all, name) <= |all|
    ensures FirstPlace(all + [it], name)
         == if FirstPlace(all, name) < |all| || it.name == name then FirstPlace(all, name) else |all| + 1
  {
    assert (all + [it])[..|all|] == all;
    FirstPlaceIsFirst(all, name);
  }

  lemma LatestAfter(all: seq<Item>, it: Item, x: Item)
    ensures IsLatest(all + [it], x) <==> it == x || (it.name != x.name && IsLatest(all, x))
  {
    assert (all + [it])[..|all|] == all;
  }

  /** A listed item has its first place in the list. */
  lemma ListedHasPlace(all: seq<Item>, x: Item)
    requires IsLatest(all, x)
    ensures FirstPlace(all, x.name) < |all|
  {
    LatestIsLast(all, x);
    FirstPlaceIsFirst(all, x.name);
  }

  /** A name of the list is that of some item of the merge. */
  lemma Named(all: seq<Item>, out: seq<Item>, k: nat) returns (i: nat)
    requires IsMerge(all, out) && k < |all|
    ensures i < |out| && out[i].name == all[k].name
  {
    hide FirstPlace, IsLatest;
    assert IsNamed(out, all[k].name);
    i :| 0 <= i < |out| && out[i].name == all[k].name;
  }

  lemma MergeReplaces(all: seq<Item>, out: seq<Item>, it: Item, place: int)
    requires IsMerge(all, out) && 0 <= place < |out| && out[place].name == it.name
    ensures IsMerge(all + [it], out[place := it])
  {
    hide FirstPlace, IsLatest;
    var longer, out' := all + [it], out[place := it];
    forall i | 0 <= i < |out'|
      ensures IsLatest(longer, out'[i]) && out'[i].name == out[i].name
      ensures FirstPlace(longer, out'[i].name) == FirstPlace(all, out[i].name)
    {
      LatestAfter(all, it, out'[i]);
      ListedHasPlace(all, out[i]);
      PlacesAfter(all, it, out[i].name);
      assert out[i].name == it.name ==> i == place by {
        assert i < place ==> FirstPlace(all, out[i].name) < FirstPlace(all, out[place].name);
        assert place < i ==> FirstPlace(all, out[place].name) < FirstPlace(all, out[i].name);
      }
    }
    forall k | 0 <= k < |longer| ensures IsNamed(out', longer[k].name) {
      if k < |all| {
        var i := Named(all, out, k);
        assert out'[i].name == longer[k].name;
      } else {
        assert out'[place].name == longer[k].name;
      }
    }
  }

  lemma MergeAppends(all: seq<Item>, out: seq<Item>, it: Item)
    requires IsMerge(all, out) && forall i :: 0 <= i < |out| ==> out[i].name != it.name
    ensures IsMerge(all + [it], out + [it])
  {
    hide FirstPlace, IsLatest;
    var longer, out' := all + [it], out + [it];
    forall i | 0 <= i < |out|
      ensures IsLatest(longer, out'[i]) && FirstPlace(longer, out'[i].name) == FirstPlace(all, out[i].name) < |all|
    {
      LatestAfter(all, it, out[i]);
      ListedHasPlace(all, out[i]);
      PlacesAfter(all, it, out[i].name);
    }
    forall k | 0 <= k < |all| ensures all[k].name != it.name {
      var i := Named(all, out, k);
    }
    LatestAfter(all, it, it);
    PlacesAfter(all, it, it.name);
    FirstPlaceIsFirst(all, it.name);
    assert FirstPlace(longer, it.name) == |all|;
    assert forall i :: 0 <= i < |out| ==> out'[i] == out[i];
    assert out'[|out|] == it;
    forall k | 0 <= k < |longer| ensures IsNamed(out', longer[k].name) {
      if k < |all| {
        var i := Named(all, out, k);
        assert out'[i].name == longer[k].name;
      } else {
        assert out'[|out|].name == longer[k].name;
      }
    }
  }

  /** mergeAlwaysItems: every name once, system order first and then the project's additions, the
      project's item winning a clash in place. */
  method MergeAlwaysItems(system: seq<Item>, project: seq<Item>) returns (out: seq<Item>)
    ensures IsMerge(system + project, out)
  {
    hide IsMerge;
    var idx: map<string, int> := map[];
    out := [];
    NothingMerged();
    out, idx := AddItems([], system, out, idx);
    assert [] + system == system;
    out, idx := AddItems(system, project, out, idx);
  }

  lemma NothingMerged()
    ensures IsMerge([], []) && IndexOk([], map[])
  {
  }

  lemma SameLatest(all: seq<Item>, x: Item, y: Item)
    requires IsLatest(all, x) && IsLatest(all, y) && FirstPlace(all, x.name) == FirstPlace(all, y.name)
    ensures x == y
  {
    hide IsLatest, FirstPlace;
    ListedHasPlace(all, x);
    FirstPlaceIsFirst(all, x.name);
    FirstPlaceIsFirst(all, y.name);
    LatestIsLast(all, x);
    LatestIsLast(all, y);
  }

  /** Some listing of the names holds the item at `i` of another, at its own place or after it. */
  lemma MatchedLater(all: seq<Item>, a: seq<Item>, b: seq<Item>, i: nat) returns (j: nat)
    requires IsMerge(all, a) && IsMerge(all, b) && i < |a| && i <= |b| && a[..i] == b[..i]
    ensures i <= j < |b| && b[j] == a[i]
  {
    hide FirstPlace, IsLatest;
    var x := a[i];
    ListedHasPlace(all, x);
    FirstPlaceIsFirst(all, x.name);
    j := Named(all, b, FirstPlace(all, x.name));
    SameLatest(all, b[j], x);
    assert forall k :: 0 <= k < i ==> a[k] == a[..i][k] == b[k];
  }

  lemma {:induction false} MergesAgree(all: seq<Item>, a: seq<Item>, b: seq<Item>, n: nat)
    requires IsMerge(all, a) && IsMerge(all, b) && n <= |a| && n <= |b|
    ensures a[..n] == b[..n]
  {
    hide FirstPlace, IsLatest, IsMerge;
    if n > 0 {
      var i := n - 1;
      MergesAgree(all, a, b, i);
      var j := MatchedLater(all, a, b, i);
      var k := MatchedLater(all, b, a, i);
      PlacesGrow(all, a, i, k);
      PlacesGrow(all, b, i, j);
      Listed(all, a, i);
      Listed(all, b, i);
      SameLatest(all, a[i], b[i]);
      assert a[..n] == a[..i] + [a[i]] && b[..n] == b[..i] + [b[i]];
    }
  }

  lemma PlacesGrow(all: seq<Item>, out: seq<Item>, i: nat, j: nat)
    requires IsMerge(all, out) && i <= j < |out|
    ensures FirstPlace(all, out[i].name) <= FirstPlace(all, out[j].name)
  {
    hide FirstPlace, IsLatest;
  }

  lemma Listed(all: seq<Item>, out: seq<Item>, i: nat)
    requires IsMerge(all, out) && i < |out|
    ensures IsLatest(all, out[i])
  {
    hide FirstPlace, IsLatest;
  }

  /** A list has only one merge. */
  lemma MergeIsUnique(all: seq<Item>, a: seq<Item>, b: seq<Item>)
    requires IsMerge(all, a) && IsMerge(all, b)
    ensures a == b
  {
    hide FirstPlace, IsLatest, IsMerge;
    var n := if |a| < |b| then |a| else |b|;
    MergesAgree(all, a, b, n);
    if n < |a| {
      var j := MatchedLater(all, a, b, n);
    } else if n < |b| {
      var j := MatchedLater(all, b, a, n);
    }
    assert a == a[..n] && b == b[..n];
  }

  // ----- truncateExplicit ----------------------------------------------------------------------

  /** The marker, in UTF-8: the ellipsis is three bytes. */
  const MARKER := " \U{E2}\U{80}\U{A6} [epic objective truncated]"

  /** utf8.RuneStart: not a continuation byte. */
  predicate RuneStart(b: char) {
    !(0x80 <= b as int < 0xC0)
  }

  /** The number of bytes the rune that starts with `b` takes, 0 when no rune does. */
  function RuneLength(b: char): nat {
    var c := b as int;
    if c < 0x80 then 1 else if 0xC0 <= c < 0xE0 then 2 else if 0xE0 <= c < 0xF0 then 3 else if 0xF0 <= c < 0xF8 then 4
      else 0
  }

  /** Whole runes from `i` to the end: a leading byte, then as many continuation bytes as it announces. */
  predicate RunesFrom(s: string, i: nat)
    requires i <= |s|
    decreases |s| - i
  {
    i == |s| ||
    (var n := RuneLength(s[i]);
     n > 0 && i + n <= |s| && (forall k :: i < k < i + n ==> !RuneStart(s[k])) && RunesFrom(s, i + n))
  }

  /** The text is a sequence of whole runes. */
  predicate WholeRunes(s: string) {
    RunesFrom(s, 0)
  }

  lemma {:induction false} CutAtRuneFrom(s: string, cut: nat, i: nat)
    requires i <= cut <= |s| && RunesFrom(s, i) && (cut < |s| ==> RuneStart(s[cut]))
    ensures RunesFrom(s[..cut], i)
    decreases |s| - i
  {
    if i < cut {
      var n := RuneLength(s[i]);
      CutAtRuneFrom(s, cut, i + n);
    }
  }

  lemma {:induction false} RunesAppend(a: string, b: string, i: nat)
    requires i <= |a| && RunesFrom(a, i) && RunesFrom(b, 0)
    ensures RunesFrom(a + b, i)
    decreases |a| - i
  {
    if i == |a| {
      RunesShift(a, b, 0);
    } else {
      RunesAppend(a, b, i + RuneLength(a[i]));
    }
  }

  lemma {:induction false} RunesShift(a: string, b: string, i: nat)
    requires i <= |b| && RunesFrom(b, i)
    ensures RunesFrom(a + b, |a| + i)
    decreases |b| - i
  {
    if i < |b| {
      RunesShift(a, b, i + RuneLength(b[i]));
    }
  }

  /** strings.TrimRight(s, " \n"). */
  function TrimRight(s: string): (r: string)
    ensures r <= s && (r == "" || (r[|r| - 1] != ' ' && r[|r| - 1] != '\n'))
    ensures forall k :: |r| <= k < |s| ==> s[k] == ' ' || s[k] == '\n'
  {
    if s != "" && (s[|s| - 1] == ' ' || s[|s| - 1] == '\n') then TrimRight(s[..|s| - 1]) else s
  }

  lemma {:induction false} TrimKeepsRunes(s: string)
    requires WholeRunes(s)
    ensures WholeRunes(TrimRight(s))
  {
    if s != "" && (s[|s| - 1] == ' ' || s[|s| - 1] == '\n') {
      CutAtRuneFrom(s, |s| - 1, 0);
      TrimKeepsRunes(s[..|s| - 1]);
    }
  }

  lemma {:induction false} AsciiFrom(s: string, i: nat)
    requires i <= |s| && forall k :: i <= k < |s| ==> s[k] as int < 0x80
    ensures RunesFrom(s, i)
    decreases |s| - i
  {
    if i < |s| {
      AsciiFrom(s, i + 1);
    }
  }

  lemma MarkerIsWholeRunes()
    ensures WholeRunes(MARKER) && |MARKER| == 31
  {
    AsciiFrom(MARKER, 4);
    assert RunesFrom(MARKER, 1);
  }

  /** The cut truncateExplicit makes: the last rune start that leaves room for the marker, or 0. */
  ghost predicate LastRuneStart(s: string, room: int, cut: nat) {
    && cut <= |s| && cut <= (if room < 0 then 0 else room)
    && (cut == 0 || (cut < |s| && !(0x80 <= s[cut] as int < 0xC0)))
    && (forall k :: cut < k <= room && k < |s| ==> 0x80 <= s[k] as int < 0xC0)
  }

  // ----- Code points -----------------------------------------------------------------------------

  /** A code point in UTF-8 (section 3 of RFC 3629). */
  function Encoded(point: int): (r: seq<int>)
    requires 0 <= point < 0x110000
  {
    if point < 0x80 then [point]
    else if point < 0x800 then [0xC0 + point / 0x40, 0x80 + point % 0x40]
    else if point < 0x10000 then [0xE0 + point / 0x1000, 0x80 + point / 0x40 % 0x40, 0x80 + point % 0x40]
    else
      [0xF0 + point / 0x40000, 0x80 + point / 0x1000 % 0x40, 0x80 + point / 0x40 % 0x40, 0x80 + point % 0x40]
  }

  type Point = p: int | 0 <= p < 0x110000 witness 0

  function Bytes(r: seq<int>): string
    requires forall k :: 0 <= k < |r| ==> 0 <= r[k] < 0x100
  {
    seq(|r|, k requires 0 <= k < |r| => r[k] as char)
  }

  lemma EncodedBytes(point: Point)
    ensures var r := Encoded(point);
      && 0 < |r| <= 4 && (forall k :: 0 <= k < |r| ==> 0 <= r[k] < 0x100)
      && !(0x80 <= r[0] < 0xC0) && (forall k :: 0 < k < |r| ==> 0x80 <= r[k] < 0xC0)
  {
  }

  /** A text in UTF-8. */
  function Utf8(points: seq<Point>): string {
    if points == [] then ""
    else
      EncodedBytes(points[0]);
      Bytes(Encoded(points[0])) + Utf8(points[1..])
  }

  lemma CutPast(first: string, rest: string, cut: nat)
    requires 0 < cut <= |first + rest| && first != ""
    requires cut < |first + rest| ==> !(0x80 <= (first + rest)[cut] as int < 0xC0)
    requires forall k :: 0 < k < |first| ==> 0x80 <= first[k] as int < 0xC0
    ensures |first| <= cut && (first + rest)[..cut] == first + rest[..cut - |first|]
    ensures cut < |first + rest| ==> !(0x80 <= rest[cut - |first|] as int < 0xC0)
  {
    assert forall k :: 0 < k < |first| ==> 0x80 <= (first + rest)[k] as int < 0xC0;
  }

  /** A cut of a text in UTF-8 that is not before a continuation byte keeps whole code points. */
  lemma {:induction false} CutKeepsPoints(points: seq<Point>, cut: nat) returns (n: nat)
    requires cut <= |Utf8(points)| && (0 < cut < |Utf8(points)| ==> !(0x80 <= Utf8(points)[cut] as int < 0xC0))
    ensures n <= |points| && Utf8(points)[..cut] == Utf8(points[..n])
  {
    hide Encoded;
    n := 0;
    if cut > 0 {
      EncodedBytes(points[0]);
      var first, rest := Bytes(Encoded(points[0])), Utf8(points[1..]);
      CutPast(first, rest, cut);
      n := CutKeepsPoints(points[1..], cut - |first|);
      n := n + 1;
      assert points[..n][1..] == points[1..][..n - 1];
    }
  }

  lemma EncodedIsRune(point: Point, rest: string)
    requires WholeRunes(rest)
    ensures WholeRunes(Bytes(Encoded(point)) + rest)
  {
    EncodedBytes(point);
    var first := Bytes(Encoded(point));
    assert RuneLength(first[0]) == |first|;
    assert forall k :: 0 < k < |first| ==> !RuneStart((first + rest)[k]);
    RunesShift(first, rest, 0);
  }

  lemma EmptyIsWhole()
    ensures WholeRunes("")
  {
  }

  /** A text in UTF-8 is whole runes. */
  lemma {:induction false} Utf8IsWholeRunes(points: seq<Point>)
    ensures WholeRunes(Utf8(points))
  {
    hide WholeRunes, Encoded;
    if points == [] {
      EmptyIsWhole();
    } else {
      Utf8IsWholeRunes(points[1..]);
      EncodedIsRune(points[0], Utf8(points[1..]));
    }
  }

  /** The cut and the trimming truncateExplicit makes in a text in UTF-8 keep whole code points. */
  lemma TruncationKeepsPoints(points: seq<Point>, room: int, cut: nat) returns (n: nat)
    requires LastRuneStart(Utf8(points), room, cut) && room < |Utf8(points)|
    ensures n <= |points| && TrimRight(Utf8(points)[..cut]) == Utf8(points[..n])
  {
    hide Utf8;
    var m := CutKeepsPoints(points, cut);
    var kept := Utf8(points)[..cut];
    n := CutKeepsPoints(points[..m], |TrimRight(kept)|);
    assert points[..m][..n] == points[..n];
    assert TrimRight(kept) == kept[..|TrimRight(kept)|];
  }

  /** truncateExplicit: a text over the ceiling is cut at a rune start and marked; the result fits the
      ceiling exactly when the text or the marker does, and is whole runes when the text is. */
  method TruncateExplicit(s: string, ceiling: int) returns (r: string)
    ensures |s| <= ceiling ==> r == s
    ensures |s| > ceiling ==> exists cut: nat ::
      LastRuneStart(s, ceiling - 31, cut) && r == TrimRight(s[..cut]) + " \U{E2}\U{80}\U{A6} [epic objective truncated]"
    ensures |r| <= ceiling <==> |s| <= ceiling || 31 <= ceiling
    ensures WholeRunes(s) ==> WholeRunes(r)
  {
    hide WholeRunes, TrimRight;
    if |s| <= ceiling {
      return s;
    }
    var cut := ceiling - |MARKER|;
    if cut < 0 {
      cut := 0;
    }
    while cut > 0 && !RuneStart(s[cut])
      invariant 0 <= cut <= (if ceiling < |MARKER| then 0 else ceiling - |MARKER|)
      invariant cut == 0 || cut < |s|
      invariant forall k :: cut < k <= ceiling - |MARKER| ==> !RuneStart(s[k])
    {
      cut := cut - 1;
    }
    assert LastRuneStart(s, ceiling - |MARKER|, cut);
    r := TrimRight(s[..cut]) + MARKER;
    if WholeRunes(s) {
      CutAndMark(s, cut);
    }
  }

  lemma CutAndMark(s: string, cut: nat)
    requires cut <= |s| && (0 < cut < |s| ==> RuneStart(s[cut])) && WholeRunes(s)
    ensures WholeRunes(TrimRight(s[..cut]) + MARKER)
  {
    hide TrimRight;
    MarkerIsWholeRunes();
    if cut > 0 {
      CutAtRuneFrom(s, cut, 0);
    }
    TrimKeepsRunes(s[..cut]);
    RunesAppend(TrimRight(s[..cut]), MARKER, 0);
  }
}
