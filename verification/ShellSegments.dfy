/** What splitting a command line into segments guarantees: the segments are quote-balanced slices
    between separators, and splitting is a homomorphism at every unquoted `;` or newline. */
module ShellSegments {
  import opened ShellQuotes

  predicate IsSeparator(sep: string) {
    sep == "&&" || sep == "||" || sep == ";" || sep == "|" || sep == "\n"
  }

  /** No `;`, `|`, newline or `&&` is left in the segment outside its own quotes. */
  ghost predicate Clean(seg: string) {
    forall i :: 0 <= i < |seg| && !Mask(seg)[i] ==>
      && seg[i] != ';' && seg[i] != '|' && seg[i] != '\n'
      && (i + 1 < |seg| && !Mask(seg)[i + 1] ==> !(seg[i] == '&' && seg[i + 1] == '&'))
  }

  /** An open segment: no separator in it so far, and none straddling its end and the text ahead. */
  ghost predicate OpenSegment(state: Quote, cur: string, rest: string) {
    && Clean(cur) && StateAfter(Out, cur) == state
    && (cur != "" && rest != "" && !Mask(cur)[|cur| - 1] && cur[|cur| - 1] == '&' ==> rest[0] != '&')
  }

  lemma CleanStep(state: Quote, cur: string, rest: string)
    requires OpenSegment(state, cur, rest) && rest != ""
    requires state.In? || (!PairAhead(state, rest) && !SingleAhead(state, rest))
    ensures OpenSegment(Advance(state, rest[0]), cur + [rest[0]], rest[1..])
  {
    hide StateAfter, MaskFrom;
    var next := cur + [rest[0]];
    var i := |cur|;
    assert next[..i] == cur && next[..i + 1] == next;
    MaskStep(next, i);
    assert forall k :: 0 <= k < i ==> Mask(next)[k] == Mask(cur)[k];
    assert forall k :: 0 <= k < i ==> next[k] == cur[k];
  }

  /** The first segment of `cur + rest` ends before rest[x..x + w], a separator; with none, w is 0. */
  ghost predicate CutsAt(state: Quote, cur: string, rest: string, x: nat, w: nat) {
    && x + w <= |rest| && Clean(cur + rest[..x])
    && (w == 0 ==> x == |rest| && SplitFrom(state, cur, rest) == [cur + rest])
    && (w > 0 ==>
          && StateAfter(state, rest[..x]) == Out && IsSeparator(rest[x..x + w])
          && SplitFrom(state, cur, rest) == [cur + rest[..x]] + Segments(rest[x + w..]))
  }

  lemma CutsAtEnd(state: Quote, cur: string)
    requires OpenSegment(state, cur, "")
    ensures CutsAt(state, cur, "", 0, 0)
  {
    assert cur + "" == cur && ""[..0] == "";
  }

  lemma CutsAhead(state: Quote, cur: string, rest: string)
    requires OpenSegment(state, cur, rest) && (PairAhead(state, rest) || SingleAhead(state, rest))
    ensures CutsAt(state, cur, rest, 0, if PairAhead(state, rest) then 2 else 1)
  {
    hide Clean, OpenSegment, MaskFrom;
    OpenIsClean(state, cur, rest);
    assert rest[..0] == "" && cur + rest[..0] == cur;
    if PairAhead(state, rest) {
      assert rest[0..2] == [rest[0], rest[1]];
    }
    assert rest[0..1] == [rest[0]];
  }

  lemma CutsLater(state: Quote, cur: string, rest: string, y: nat, v: nat)
    requires rest != "" && !PairAhead(state, rest) && !SingleAhead(state, rest)
    requires CutsAt(Advance(state, rest[0]), cur + [rest[0]], rest[1..], y, v)
    ensures CutsAt(state, cur, rest, y + 1, v)
  {
    hide Clean, MaskFrom, IsSeparator;
    FirstCutShift(cur, rest, y, v);
  }

  /** The first segment: the text up to the first separator outside quotes. */
  lemma {:induction false} FirstCut(state: Quote, cur: string, rest: string) returns (x: nat, w: nat)
    requires OpenSegment(state, cur, rest)
    ensures CutsAt(state, cur, rest, x, w)
    decreases |rest|
  {
    hide OpenSegment, CutsAt;
    if rest == "" {
      x, w := 0, 0;
      CutsAtEnd(state, cur);
    } else if PairAhead(state, rest) || SingleAhead(state, rest) {
      x, w := 0, if PairAhead(state, rest) then 2 else 1;
      CutsAhead(state, cur, rest);
    } else {
      CleanStep(state, cur, rest);
      x, w := FirstCut(Advance(state, rest[0]), cur + [rest[0]], rest[1..]);
      CutsLater(state, cur, rest, x, w);
      x := x + 1;
    }
  }

  lemma OpenIsClean(state: Quote, cur: string, rest: string)
    requires OpenSegment(state, cur, rest)
    ensures Clean(cur)
  {
  }

  lemma FirstCutShift(cur: string, rest: string, y: nat, v: nat)
    requires rest != "" && y + v <= |rest| - 1
    ensures cur + [rest[0]] + rest[1..][..y] == cur + rest[..y + 1]
    ensures cur + [rest[0]] + rest[1..] == cur + rest
    ensures rest[1..][y..y + v] == rest[y + 1..y + 1 + v] && rest[1..][y + v..] == rest[y + 1 + v..]
    ensures rest[..y + 1][1..] == rest[1..][..y] && rest[..y + 1][0] == rest[0]
  {
  }

  /** Segment k of `s` starts at starts[k]; separators fill the gaps, and nothing else is left out. */
  ghost predicate Partition(s: string, segs: seq<string>, starts: seq<nat>) {
    && |starts| == |segs| > 0 && starts[0] == 0
    && (forall k :: 0 <= k < |segs| ==> SegmentAt(s, segs[k], starts[k]))
    && (forall k :: 0 <= k < |segs| - 1 ==> GapAfter(s, segs, starts, k))
    && starts[|segs| - 1] + |segs[|segs| - 1]| == |s|
  }

  /** Between segment k and the next one lies one separator. */
  predicate GapAfter(s: string, segs: seq<string>, starts: seq<nat>, k: nat)
    requires |starts| == |segs| && k + 1 < |segs|
  {
    starts[k] + |segs[k]| <= starts[k + 1] <= |s| && IsSeparator(s[starts[k] + |segs[k]|..starts[k + 1]])
  }

  /** seg is the slice of `s` at `at`, it reads the same on its own as it does there, and no unquoted
      separator is left in it. */
  ghost predicate SegmentAt(s: string, seg: string, at: nat) {
    && at + |seg| <= |s| && s[at..at + |seg|] == seg
    && StateAfter(Out, s[..at]) == Out
    && Mask(s)[at..at + |seg|] == Mask(seg)
    && Clean(seg)
  }

  lemma WholeIsSegment(s: string)
    requires Clean(s)
    ensures SegmentAt(s, s, 0)
  {
    assert s[..0] == "" && s[0..|s|] == s && Mask(s)[0..|s|] == Mask(s);
  }

  lemma PrefixIsSegment(s: string, x: nat)
    requires x <= |s| && Clean(s[..x])
    ensures SegmentAt(s, s[..x], 0)
  {
    hide MaskFrom;
    assert s[..0] == "" && s[0..x] == s[..x] && s == s[..x] + s[x..];
    MaskAppend(Out, s[..x], s[x..]);
    assert Mask(s)[0..x] == Mask(s[..x]);
  }

  /** A segment of the tail is a segment of the whole when the part before the tail is quote-balanced. */
  lemma SegmentShift(s: string, o: nat, seg: string, at: nat)
    requires o <= |s| && StateAfter(Out, s[..o]) == Out && SegmentAt(s[o..], seg, at)
    ensures SegmentAt(s, seg, o + at)
  {
    hide MaskFrom, StateAfter, Clean;
    var tail := s[o..];
    assert s == s[..o] + tail && s[..o + at] == s[..o] + tail[..at];
    StateAppend(Out, s[..o], tail[..at]);
    MaskAppend(Out, s[..o], tail);
    assert s[o + at..o + at + |seg|] == tail[at..at + |seg|];
    assert Mask(s)[o + at..o + at + |seg|] == Mask(tail)[at..at + |seg|];
  }

  lemma SeparatorKeepsOut(s: string, x: nat, w: nat)
    requires x + w <= |s| && StateAfter(Out, s[..x]) == Out && IsSeparator(s[x..x + w])
    ensures StateAfter(Out, s[..x + w]) == Out
  {
    hide MaskFrom, StateAfter;
    var sep := s[x..x + w];
    assert sep[0] == s[x] && (w == 2 ==> sep[1] == s[x + 1]);
    MaskStep(s, x);
    if w == 2 {
      MaskStep(s, x + 1);
    }
  }

  lemma PartitionOne(s: string)
    requires Clean(s)
    ensures Partition(s, [s], [0])
  {
    hide MaskFrom, Clean;
    WholeIsSegment(s);
  }

  function Shifted(o: nat, starts: seq<nat>): (r: seq<nat>)
    ensures |r| == |starts| + 1 && r[0] == 0
    ensures forall k :: 0 < k < |r| ==> r[k] == o + starts[k - 1]
  {
    [0] + seq(|starts|, k requires 0 <= k < |starts| => o + starts[k])
  }

  lemma PartitionCons(s: string, x: nat, w: nat, segs: seq<string>, starts: seq<nat>)
    requires x + w <= |s| && Clean(s[..x])
    requires StateAfter(Out, s[..x]) == Out && IsSeparator(s[x..x + w])
    requires Partition(s[x + w..], segs, starts)
    ensures Partition(s, [s[..x]] + segs, Shifted(x + w, starts))
  {
    hide MaskFrom, Clean, StateAfter, IsSeparator, SegmentAt, Shifted, GapAfter;
    var o := x + w;
    var segs', starts' := [s[..x]] + segs, Shifted(o, starts);
    SeparatorKeepsOut(s, x, w);
    PrefixIsSegment(s, x);
    forall k | 0 <= k < |segs'| ensures SegmentAt(s, segs'[k], starts'[k]) {
      if k > 0 {
        SegmentShift(s, o, segs[k - 1], starts[k - 1]);
      }
    }
    forall k | 0 <= k < |segs'| - 1 ensures GapAfter(s, segs', starts', k) {
      if k == 0 {
        FirstGap(s, x, w, segs', starts');
      } else {
        GapShift(s, o, segs, starts, segs', starts', k - 1);
      }
    }
  }

  lemma FirstGap(s: string, x: nat, w: nat, segs: seq<string>, starts: seq<nat>)
    requires x + w <= |s| && IsSeparator(s[x..x + w])
    requires |segs| == |starts| >= 2 && segs[0] == s[..x] && starts[0] == 0 && starts[1] == x + w
    ensures GapAfter(s, segs, starts, 0)
  {
    hide IsSeparator;
  }

  lemma GapShift(s: string, o: nat, segs: seq<string>, starts: seq<nat>, segs': seq<string>, starts': seq<nat>, k: nat)
    requires o <= |s| && |segs| == |starts| && |segs'| == |starts'| == |segs| + 1 && k + 1 < |segs|
    requires segs'[k + 1] == segs[k] && starts'[k + 1] == o + starts[k] && starts'[k + 2] == o + starts[k + 1]
    requires GapAfter(s[o..], segs, starts, k)
    ensures GapAfter(s, segs', starts', k + 1)
  {
    hide IsSeparator;
    assert s[o..][starts[k] + |segs[k]|..starts[k + 1]] == s[o + starts[k] + |segs[k]|..o + starts[k + 1]];
  }

  /** The segments and the removed separators rebuild the command; every segment starts outside
      quotes, so its own mask is the matching slice of the command's; and no segment keeps an unquoted
      separator. */
  lemma {:induction false} SegmentsPartition(s: string)
    ensures exists starts :: Partition(s, Segments(s), starts)
    decreases |s|
  {
    hide MaskFrom, SplitFrom, Clean, Partition, IsSeparator;
    NothingOpen(s);
    var x, w := FirstCut(Out, "", s);
    assert "" + s[..x] == s[..x] && "" + s == s;
    if w == 0 {
      assert s[..x] == s;
      PartitionOne(s);
    } else {
      SegmentsPartition(s[x + w..]);
      var starts :| Partition(s[x + w..], Segments(s[x + w..]), starts);
      PartitionCons(s, x, w, Segments(s[x + w..]), starts);
    }
  }

  lemma NothingOpen(s: string)
    ensures OpenSegment(Out, "", s)
    ensures Segments(s) == SplitFrom(Out, "", s)
    ensures !IsSeparator("")
  {
  }

  // ----- Homomorphism --------------------------------------------------------------------------

  lemma AheadOfBreak(state: Quote, a: string, c: char, b: string)
    requires a != "" && (c == ';' || c == '\n')
    ensures PairAhead(state, a + [c] + b) <==> PairAhead(state, a)
    ensures SingleAhead(state, a + [c] + b) <==> SingleAhead(state, a)
    ensures (a + [c] + b)[0] == a[0] && (a + [c] + b)[1..] == a[1..] + [c] + b
    ensures |a| >= 2 ==> (a + [c] + b)[2..] == a[2..] + [c] + b
  {
    var whole := a + [c] + b;
    assert whole[|a|] == c;
    assert |a| >= 2 ==> whole[1] == a[1];
  }

  lemma StateAfterTwo(a: string)
    requires PairAhead(Out, a)
    ensures StateAfter(Out, a) == StateAfter(Out, a[2..])
  {
    assert a[1..][1..] == a[2..] && a[1..][0] == a[1];
  }

  lemma {:induction false} SplitAtBreak(state: Quote, cur: string, a: string, c: char, b: string)
    requires (c == ';' || c == '\n') && StateAfter(state, a) == Out
    ensures SplitFrom(state, cur, a + [c] + b) == SplitFrom(state, cur, a) + Segments(b)
    decreases |a|
  {
    if a == "" {
      assert a + [c] + b == [c] + b && ([c] + b)[1..] == b;
    } else {
      AheadOfBreak(state, a, c, b);
      if PairAhead(state, a) {
        StateAfterTwo(a);
        SplitAtBreak(Out, "", a[2..], c, b);
      } else if SingleAhead(state, a) {
        SplitAtBreak(Out, "", a[1..], c, b);
      } else {
        SplitAtBreak(Advance(state, a[0]), cur + [a[0]], a[1..], c, b);
      }
    }
  }

  lemma {:induction false} FirstSegmentGrows(state: Quote, cur: string, rest: string)
    ensures |SplitFrom(state, cur, rest)[0]| >= |cur|
    ensures state.In? && rest != "" ==> |SplitFrom(state, cur, rest)[0]| > |cur|
    decreases |rest|
  {
    if rest != "" && !PairAhead(state, rest) && !SingleAhead(state, rest) {
      FirstSegmentGrows(Advance(state, rest[0]), cur + [rest[0]], rest[1..]);
    }
  }

  /** What is ahead in a text that ends inside quotes does not depend on what follows it. */
  lemma AheadInQuotes(state: Quote, a: string, c: char, b: string)
    requires a != "" && StateAfter(state, a).In?
    ensures PairAhead(state, a + [c] + b) <==> PairAhead(state, a)
    ensures SingleAhead(state, a + [c] + b) <==> SingleAhead(state, a)
    ensures (a + [c] + b)[0] == a[0] && (a + [c] + b)[1..] == a[1..] + [c] + b
    ensures |a| >= 2 ==> (a + [c] + b)[2..] == a[2..] + [c] + b
  {
    var whole := a + [c] + b;
    assert |a| >= 2 ==> whole[1] == a[1];
    assert |a| == 1 ==> StateAfter(state, a) == Advance(state, a[0]) by { assert a[1..] == "" || |a| > 1; }
  }

  /** A byte inside quotes, a break above all, joins the segment it falls in. */
  lemma {:induction false} QuotedBreakJoins(state: Quote, cur: string, a: string, c: char, b: string)
    requires StateAfter(state, a).In?
    ensures var (whole, left) := (SplitFrom(state, cur, a + [c] + b), SplitFrom(state, cur, a));
      |whole| >= |left| && |whole[|left| - 1]| > |left[|left| - 1]|
    decreases |a|
  {
    if a == "" {
      assert a + [c] + b == [c] + b;
      FirstSegmentGrows(state, cur, [c] + b);
    } else {
      AheadInQuotes(state, a, c, b);
      if PairAhead(state, a) {
        StateAfterTwo(a);
        QuotedBreakJoins(Out, "", a[2..], c, b);
      } else if SingleAhead(state, a) {
        QuotedBreakJoins(Out, "", a[1..], c, b);
      } else {
        QuotedBreakJoins(Advance(state, a[0]), cur + [a[0]], a[1..], c, b);
      }
    }
  }

  /** Splitting is a homomorphism at a `;` or a newline exactly when the text before it ends outside
      quotes. */
  lemma SegmentsHomomorphism(a: string, c: char, b: string)
    requires c == ';' || c == '\n'
    ensures Segments(a + [c] + b) == Segments(a) + Segments(b) <==> StateAfter(Out, a) == Out
  {
    hide SplitFrom, StateAfter;
    if StateAfter(Out, a) == Out {
      SplitAtBreak(Out, "", a, c, b);
    } else {
      QuotedBreakJoins(Out, "", a, c, b);
      var n := |Segments(a)|;
      assert (Segments(a) + Segments(b))[n - 1] == Segments(a)[n - 1];
    }
  }

  // ----- At `&&` -------------------------------------------------------------------------------

  /** The number of `&` a text ends in. */
  function Amps(a: string): (n: nat)
    ensures n <= |a|
  {
    if a == "" then 0
    else
      var n := Amps(a[1..]);
      if n == |a| - 1 && a[0] == '&' then |a| else n
  }

  lemma {:induction false} AmpsAreLast(a: string)
    ensures forall i :: |a| - Amps(a) <= i < |a| ==> a[i] == '&'
    ensures Amps(a) < |a| ==> a[|a| - Amps(a) - 1] != '&'
  {
    if a != "" {
      AmpsAreLast(a[1..]);
      assert forall i :: 0 < i < |a| ==> a[i] == a[1..][i - 1];
    }
  }

  lemma {:induction false} AmpsStayQuoted(state: Quote, a: string)
    requires state.In? && Amps(a) == |a| && state.q != '&'
    ensures StateAfter(state, a) == state
    decreases |a|
  {
    if a != "" {
      AmpsStayQuoted(state, a[1..]);
    }
  }

  lemma AmpsStep(a: string)
    requires a != ""
    ensures Amps(a) == if Amps(a[1..]) == |a| - 1 && a[0] == '&' then |a| else Amps(a[1..])
  {
  }

  /** A pair read from the front leaves the parity. */
  lemma AmpsAfterPair(a: string)
    requires PairAhead(Out, a)
    ensures Amps(a) == Amps(a[2..]) || Amps(a) == Amps(a[2..]) + 2
  {
    hide Amps;
    AmpsStep(a);
    AmpsStep(a[1..]);
    assert a[1..][1..] == a[2..] && a[1..][0] == a[1];
  }

  /** What is ahead of `&&`: only an `&` right before it makes a difference. */
  lemma AheadOfAnd(state: Quote, a: string, b: string)
    requires a != "" && a != "&"
    ensures PairAhead(state, a + "&&" + b) <==> PairAhead(state, a)
    ensures SingleAhead(state, a + "&&" + b) <==> SingleAhead(state, a)
    ensures (a + "&&" + b)[0] == a[0] && (a + "&&" + b)[1..] == a[1..] + "&&" + b
    ensures |a| >= 2 ==> (a + "&&" + b)[2..] == a[2..] + "&&" + b
  {
    var whole := a + "&&" + b;
    assert |a| >= 2 ==> whole[1] == a[1];
    assert |a| == 1 ==> whole[1] == '&' && a[0] != '&';
  }

  lemma ConsCancels(x: string, whole: seq<string>, left: seq<string>, right: seq<string>)
    ensures [x] + whole == [x] + left + right <==> whole == left + right
  {
    assert ([x] + whole)[1..] == whole;
    assert ([x] + left + right)[1..] == left + right;
  }

  /** The last `&` of an odd run pairs with the first of the separator. */
  lemma OddAmpPairs(cur: string, b: string)
    ensures SplitFrom(Out, cur, "&" + "&&" + b) != SplitFrom(Out, cur, "&") + Segments(b)
  {
    var whole := "&" + "&&" + b;
    assert whole[0] == whole[1] == '&' && PairAhead(Out, whole);
    assert SplitFrom(Out, cur, whole)[0] == cur;
    assert ("&")[1..] == "" && SplitFrom(Out, cur + "&", "") == [cur + "&"];
    assert SplitFrom(Out, cur, "&")[0] == cur + "&";
  }

  lemma QuotedAmp(state: Quote)
    requires state.In? && state.q != '&'
    ensures StateAfter(state, "&") == state
  {
    assert ("&")[1..] == "";
  }

  predicate QuoteState(state: Quote) {
    state.Out? || IsQuote(state.q)
  }

  lemma {:induction false} SplitAtAnd(state: Quote, cur: string, a: string, b: string)
    requires StateAfter(state, a) == Out && QuoteState(state)
    ensures SplitFrom(state, cur, a + "&&" + b) == SplitFrom(state, cur, a) + Segments(b) <==> Amps(a) % 2 == 0
    decreases |a|
  {
    if a == "" {
      assert a + "&&" + b == "&&" + b && ("&&" + b)[2..] == b && PairAhead(Out, "&&" + b);
    } else if a == "&" && state.Out? {
      OddAmpPairs(cur, b);
      assert Amps(a[1..]) == 0;
    } else {
      if state.In? {
        QuotedAmp(state);
      }
      AheadOfAnd(state, a, b);
      if PairAhead(state, a) {
        StateAfterTwo(a);
        SplitAtAnd(Out, "", a[2..], b);
        AmpsAfterPair(a);
        ConsCancels(cur, SplitFrom(Out, "", a[2..] + "&&" + b), SplitFrom(Out, "", a[2..]), Segments(b));
      } else if SingleAhead(state, a) {
        SplitAtAnd(Out, "", a[1..], b);
        ConsCancels(cur, SplitFrom(Out, "", a[1..] + "&&" + b), SplitFrom(Out, "", a[1..]), Segments(b));
      } else {
        SplitAtAnd(Advance(state, a[0]), cur + [a[0]], a[1..], b);
        if state.In? && Amps(a) == |a| {
          AmpsStayQuoted(state, a);
        }
      }
    }
  }

  /** Splitting is a homomorphism at `&&` exactly when the text before it ends outside quotes and not in an
      odd run of `&`. */
  lemma SegmentsHomomorphismAtAnd(a: string, b: string)
    ensures Segments(a + "&&" + b) == Segments(a) + Segments(b) <==> StateAfter(Out, a) == Out && Amps(a) % 2 == 0
  {
    hide SplitFrom, StateAfter, Amps;
    if StateAfter(Out, a) == Out {
      SplitAtAnd(Out, "", a, b);
    } else {
      assert a + "&&" + b == a + ['&'] + ("&" + b);
      QuotedBreakJoins(Out, "", a, '&', "&" + b);
      var n := |Segments(a)|;
      assert (Segments(a) + Segments(b))[n - 1] == Segments(a)[n - 1];
    }
  }

  // ----- Printed command lines -----------------------------------------------------------------

  /** A piece of a command: bare text, or text in quotes. */
  datatype Piece = Bare(text: string) | Quoted(q: char, text: string)

  /** Bare text has no quote and no separator; text in quotes has no quote of its kind. */
  predicate IsPiece(piece: Piece) {
    match piece
    case Bare(t) =>
      && '\'' !in t && '"' !in t && ';' !in t && '|' !in t && '\n' !in t
      && forall i :: 0 <= i < |t| && t[i] == '&' ==> i + 1 < |t| && t[i + 1] != '&'
    case Quoted(q, t) => (q == '\'' || q == '"') && q !in t
  }

  function PieceText(piece: Piece): string {
    match piece
    case Bare(t) => t
    case Quoted(q, t) => [q] + t + [q]
  }

  function Printed(pieces: seq<Piece>): string {
    if pieces == [] then "" else PieceText(pieces[0]) + Printed(pieces[1..])
  }

  lemma {:induction false} BareRead(cur: string, t: string, rest: string)
    requires IsPiece(Bare(t))
    ensures SplitFrom(Out, cur, t + rest) == SplitFrom(Out, cur + t, rest)
    decreases |t|
  {
    if t == "" {
      assert t + rest == rest && cur + t == cur;
    } else {
      var whole := t + rest;
      assert t[0] in t && forall c :: c in t[1..] ==> c in t;
      assert whole[0] == t[0] && whole[1..] == t[1..] + rest;
      assert |t| > 1 ==> whole[1] == t[1];
      assert forall i :: 0 <= i < |t[1..]| ==> t[1..][i] == t[i + 1];
      BareRead(cur + [t[0]], t[1..], rest);
      assert cur + [t[0]] + t[1..] == cur + t;
    }
  }

  lemma {:induction false} InsideRead(q: char, cur: string, t: string, rest: string)
    requires (q == '\'' || q == '"') && q !in t
    ensures SplitFrom(In(q), cur, t + [q] + rest) == SplitFrom(Out, cur + t + [q], rest)
    decreases |t|
  {
    var whole := t + [q] + rest;
    if t == "" {
      assert whole[0] == q && whole[1..] == rest && cur + t + [q] == cur + [q];
    } else {
      assert t[0] in t && forall c :: c in t[1..] ==> c in t;
      assert whole[0] == t[0] && whole[1..] == t[1..] + [q] + rest;
      InsideRead(q, cur + [t[0]], t[1..], rest);
      assert cur + [t[0]] + t[1..] == cur + t;
    }
  }

  lemma PieceRead(cur: string, piece: Piece, rest: string)
    requires IsPiece(piece)
    ensures SplitFrom(Out, cur, PieceText(piece) + rest) == SplitFrom(Out, cur + PieceText(piece), rest)
  {
    match piece
    case Bare(t) => BareRead(cur, t, rest);
    case Quoted(q, t) =>
      var whole := PieceText(piece) + rest;
      assert whole[0] == q && whole[1..] == t + [q] + rest;
      InsideRead(q, cur + [q], t, rest);
      assert cur + [q] + t + [q] == cur + PieceText(piece);
  }

  lemma {:induction false} PiecesRead(cur: string, pieces: seq<Piece>, rest: string)
    requires forall x :: x in pieces ==> IsPiece(x)
    ensures SplitFrom(Out, cur, Printed(pieces) + rest) == SplitFrom(Out, cur + Printed(pieces), rest)
    decreases |pieces|
  {
    hide SplitFrom, IsPiece, PieceText;
    if pieces == [] {
      assert Printed(pieces) + rest == rest && cur + Printed(pieces) == cur;
    } else {
      var t, more := PieceText(pieces[0]), pieces[1..];
      assert pieces[0] in pieces && forall x :: x in more ==> x in pieces;
      assert Printed(pieces) + rest == t + (Printed(more) + rest);
      PieceRead(cur, pieces[0], Printed(more) + rest);
      PiecesRead(cur + t, more, rest);
      assert cur + t + Printed(more) == cur + Printed(pieces);
    }
  }

  /** Commands printed one after the other, with a separator between each and the next. */
  function Line(commands: seq<seq<Piece>>, seps: seq<string>): string
    requires |commands| == |seps| + 1
  {
    if seps == [] then Printed(commands[0])
    else Printed(commands[0]) + seps[0] + Line(commands[1..], seps[1..])
  }

  ghost predicate IsCommand(pieces: seq<Piece>) {
    Printed(pieces) != "" && forall x :: x in pieces ==> IsPiece(x)
  }

  /** Splitting undoes printing: whatever is in the quotes, a line of commands splits into just these
      commands. */
  lemma {:induction false} SegmentsOfLine(commands: seq<seq<Piece>>, seps: seq<string>)
    requires |commands| == |seps| + 1 && forall c :: c in commands ==> IsCommand(c)
    requires forall sep :: sep in seps ==> sep in {"&&", "||", ";", "|", "\n"}
    ensures Segments(Line(commands, seps)) == seq(|commands|, k requires 0 <= k < |commands| => Printed(commands[k]))
    decreases |seps|
  {
    hide SplitFrom, Printed;
    var first := Printed(commands[0]);
    assert commands[0] in commands && IsCommand(commands[0]);
    if seps == [] {
      PiecesRead("", commands[0], "");
      assert first + "" == first && "" + first == first;
      OneSegment(first);
    } else {
      assert seps[0] in seps && forall sep :: sep in seps[1..] ==> sep in seps;
      assert forall c :: c in commands[1..] ==> c in commands;
      assert commands[1] in commands;
      CommandRead(commands, seps);
      SegmentsOfLine(commands[1..], seps[1..]);
    }
  }

  lemma CommandRead(commands: seq<seq<Piece>>, seps: seq<string>)
    requires |commands| == |seps| + 1 && seps != [] && IsCommand(commands[0]) && IsCommand(commands[1])
    requires seps[0] in {"&&", "||", ";", "|", "\n"}
    ensures Segments(Line(commands, seps)) == [Printed(commands[0])] + Segments(Line(commands[1..], seps[1..]))
  {
    hide SplitFrom, Printed, IsPiece, Segments;
    LineStarts(commands[1..], seps[1..]);
    FirstCommandRead(commands[0], seps[0], Line(commands[1..], seps[1..]));
  }

  lemma FirstCommandRead(pieces: seq<Piece>, sep: string, more: string)
    requires (forall x :: x in pieces ==> IsPiece(x)) && sep in {"&&", "||", ";", "|", "\n"}
    requires more == "" || more[0] != '|'
    ensures Segments(Printed(pieces) + sep + more) == [Printed(pieces)] + Segments(more)
  {
    hide SplitFrom, Printed, IsPiece;
    PiecesRead("", pieces, sep + more);
    Regrouped(Printed(pieces), sep, more);
    SeparatorRead(Printed(pieces), sep, more);
  }

  lemma Regrouped(a: string, b: string, c: string)
    ensures a + b + c == a + (b + c) && "" + a == a
  {
  }

  lemma OneSegment(cur: string)
    ensures SplitFrom(Out, cur, "") == [cur]
  {
  }

  /** No command starts with a `|`. */
  lemma LineStarts(commands: seq<seq<Piece>>, seps: seq<string>)
    requires |commands| == |seps| + 1 && IsCommand(commands[0])
    ensures var line := Line(commands, seps); line != "" && line[0] != '|'
  {
    PrintedStarts(commands[0]);
  }

  lemma {:induction false} PrintedStarts(pieces: seq<Piece>)
    requires IsCommand(pieces)
    ensures Printed(pieces)[0] != '|'
  {
    assert pieces[0] in pieces && IsPiece(pieces[0]);
    if PieceText(pieces[0]) == "" {
      assert Printed(pieces) == Printed(pieces[1..]);
      assert forall x :: x in pieces[1..] ==> x in pieces;
      PrintedStarts(pieces[1..]);
    } else {
      var t := PieceText(pieces[0]);
      assert Printed(pieces)[0] == t[0] && (pieces[0].Bare? ==> t[0] in t);
    }
  }

  lemma SeparatorRead(cur: string, sep: string, rest: string)
    requires sep in {"&&", "||", ";", "|", "\n"} && (rest == "" || rest[0] != '|')
    ensures SplitFrom(Out, cur, sep + rest) == [cur] + Segments(rest)
  {
    var whole := sep + rest;
    assert |sep| == 1 ==> whole[1..] == rest;
    assert |sep| == 2 ==> whole[2..] == rest;
    assert whole[0] == sep[0] && (|sep| == 2 ==> whole[1] == sep[1]);
    assert |sep| == 1 && rest != "" ==> whole[1] == rest[0];
  }
}
