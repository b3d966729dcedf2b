/** The quote automaton and the segment splitter of the commit gate
    (internal/cli/cmd_hook_commitgate.go). */
module ShellQuotes {

  /** Outside any quotes, or inside a span opened by the quote byte `q`. */
  datatype Quote = Out | In(q: char)

  predicate IsQuote(c: char) {
    c == '\'' || c == '"'
  }

  /** The state after one byte. */
  function Advance(state: Quote, c: char): Quote {
    if state.Out? && IsQuote(c) then In(c)
    else if state.In? && c == state.q then Out
    else state
  }

  /** Whether a byte read in `state` lies in a quoted span, the quotes themselves included. */
  predicate Quoted(state: Quote, c: char) {
    state.In? || IsQuote(c)
  }

  function StateAfter(state: Quote, s: string): Quote
    decreases |s|
  {
    if s == "" then state else StateAfter(Advance(state, s[0]), s[1..])
  }

  /** The mask of `s` when it is read from `state`. */
  function MaskFrom(state: Quote, s: string): (mask: seq<bool>)
    ensures |mask| == |s|
    decreases |s|
  {
    if s == "" then [] else [Quoted(state, s[0])] + MaskFrom(Advance(state, s[0]), s[1..])
  }

  function Mask(s: string): (mask: seq<bool>)
    ensures |mask| == |s|
  {
    MaskFrom(Out, s)
  }

  lemma {:induction false} StateAppend(state: Quote, a: string, b: string)
    ensures StateAfter(state, a + b) == StateAfter(StateAfter(state, a), b)
    decreases |a|
  {
    if a == "" {
      assert a + b == b;
    } else {
      assert (a + b)[1..] == a[1..] + b;
      StateAppend(Advance(state, a[0]), a[1..], b);
    }
  }

  /** Masks compose: the mask of a concatenation is the mask of the first part followed by the mask of
      the second read in the state the first leaves. */
  lemma {:induction false} MaskAppend(state: Quote, a: string, b: string)
    ensures MaskFrom(state, a + b) == MaskFrom(state, a) + MaskFrom(StateAfter(state, a), b)
    decreases |a|
  {
    if a == "" {
      assert a + b == b;
    } else {
      assert (a + b)[1..] == a[1..] + b;
      MaskAppend(Advance(state, a[0]), a[1..], b);
    }
  }

  lemma {:induction false} UnquotedFrom(p: string)
    requires '\'' !in p && '"' !in p
    ensures StateAfter(Out, p) == Out && MaskFrom(Out, p) == seq(|p|, _ => false)
    decreases |p|
  {
    if p != "" {
      assert p[0] in p && forall c :: c in p[1..] ==> c in p;
      UnquotedFrom(p[1..]);
    }
  }

  lemma {:induction false} InsideFrom(q: char, x: string)
    requires q !in x
    ensures StateAfter(In(q), x) == In(q) && MaskFrom(In(q), x) == seq(|x|, _ => true)
    decreases |x|
  {
    if x != "" {
      assert x[0] in x && forall c :: c in x[1..] ==> c in x;
      InsideFrom(q, x[1..]);
    }
  }

  lemma OneQuote(q: char)
    requires q == '\'' || q == '"'
    ensures MaskFrom(Out, [q]) == [true] && StateAfter(Out, [q]) == In(q)
    ensures MaskFrom(In(q), [q]) == [true] && StateAfter(In(q), [q]) == Out
  {
    assert [q][1..] == [];
  }

  /** A text with neither quote is outside quotes, every byte of it. */
  lemma UnquotedText(p: string)
    requires '\'' !in p && '"' !in p
    ensures Mask(p) == seq(|p|, _ => false) && StateAfter(Out, p) == Out
  {
    UnquotedFrom(p);
  }

  /** A single or double quote opens a span that goes on to the next quote of its kind, both included; after
      it the text is read as if it stood alone. */
  lemma QuotedSpan(p: string, q: char, x: string, r: string)
    requires '\'' !in p && '"' !in p && (q == '\'' || q == '"') && q !in x
    ensures Mask(p + [q] + x + [q] + r) == seq(|p|, _ => false) + seq(|x| + 2, _ => true) + Mask(r)
    ensures StateAfter(Out, p + [q] + x + [q] + r) == StateAfter(Out, r)
  {
    hide MaskFrom, StateAfter;
    UnquotedFrom(p);
    InsideFrom(q, x);
    OneQuote(q);
    assert p + [q] + x + [q] + r == p + ([q] + (x + ([q] + r)));
    MaskAppend(Out, p, [q] + (x + ([q] + r)));
    MaskAppend(Out, [q], x + ([q] + r));
    MaskAppend(In(q), x, [q] + r);
    MaskAppend(In(q), [q], r);
    StateAppend(Out, p, [q] + (x + ([q] + r)));
    StateAppend(Out, [q], x + ([q] + r));
    StateAppend(In(q), x, [q] + r);
    StateAppend(In(q), [q], r);
    TruesAround(|x|, Mask(r));
  }

  /** A quote with no other of its kind after it opens a span to the end of the text. */
  lemma OpenSpan(p: string, q: char, x: string)
    requires '\'' !in p && '"' !in p && (q == '\'' || q == '"') && q !in x
    ensures Mask(p + [q] + x) == seq(|p|, _ => false) + seq(|x| + 1, _ => true)
    ensures StateAfter(Out, p + [q] + x) == In(q)
  {
    hide MaskFrom, StateAfter;
    UnquotedFrom(p);
    InsideFrom(q, x);
    OneQuote(q);
    assert p + [q] + x == p + ([q] + x);
    MaskAppend(Out, p, [q] + x);
    MaskAppend(Out, [q], x);
    StateAppend(Out, p, [q] + x);
    StateAppend(Out, [q], x);
    TrueFirst(|x|);
  }

  lemma TruesAround(n: nat, mask: seq<bool>)
    ensures [true] + (seq(n, _ => true) + ([true] + mask)) == seq(n + 2, _ => true) + mask
  {
  }

  lemma TrueFirst(n: nat)
    ensures [true] + seq(n, _ => true) == seq(n + 1, _ => true)
  {
  }

  lemma MaskStep(s: string, i: nat)
    requires i < |s|
    ensures Mask(s[..i + 1]) == Mask(s[..i]) + [Quoted(StateAfter(Out, s[..i]), s[i])]
    ensures StateAfter(Out, s[..i + 1]) == Advance(StateAfter(Out, s[..i]), s[i])
  {
    assert s[..i + 1] == s[..i] + [s[i]];
    MaskAppend(Out, s[..i], [s[i]]);
    StateAppend(Out, s[..i], [s[i]]);
    assert MaskFrom(StateAfter(Out, s[..i]), [s[i]]) == [Quoted(StateAfter(Out, s[..i]), s[i])];
  }

  /** quoteMask: one pass that writes the mask in place.  `q` is the open quote, None outside. */
  method QuoteMask(s: string) returns (mask: array<bool>)
    ensures fresh(mask) && mask[..] == Mask(s)
  {
    hide MaskFrom, StateAfter;
    mask := new bool[|s|](_ => false);
    var q := Out;
    assert s[..0] == "" && Mask("") == [] && StateAfter(Out, "") == Out by { EmptyMask(); }
    for i := 0 to |s|
      invariant mask.Length == |s|
      invariant q == StateAfter(Out, s[..i])
      invariant mask[..i] == Mask(s[..i])
      invariant forall k :: i <= k < |s| ==> !mask[k]
    {
      MaskStep(s, i);
      var c := s[i];
      if q == Out && (c == '\'' || c == '"') {
        q := In(c);
        mask[i] := true;
      } else if q != Out && c == q.q {
        mask[i] := true;
        q := Out;
      } else if q != Out {
        mask[i] := true;
      }
      assert mask[..i + 1] == mask[..i] + [mask[i]];
    }
    assert s[..|s|] == s && mask[..] == mask[..|s|];
  }

  lemma EmptyMask()
    ensures Mask("") == [] && StateAfter(Out, "") == Out
  {
  }

  // ----- Segments ------------------------------------------------------------------------------

  /** The text left to split starts, outside quotes, with one of the two-byte separators. */
  predicate PairAhead(state: Quote, rest: string) {
    && state.Out? && |rest| >= 2 && rest[0] == rest[1] && (rest[0] == '&' || rest[0] == '|')
  }

  predicate SingleAhead(state: Quote, rest: string) {
    && state.Out? && rest != "" && (rest[0] == ';' || rest[0] == '|' || rest[0] == '\n')
  }

  /** The segments of `cur + rest`, where `cur` is the open segment read so far and `state` the quote
      state it leaves. */
  function SplitFrom(state: Quote, cur: string, rest: string): (segs: seq<string>)
    ensures |segs| > 0
    decreases |rest|
  {
    if rest == "" then [cur]
    else if PairAhead(state, rest) then [cur] + SplitFrom(Out, "", rest[2..])
    else if SingleAhead(state, rest) then [cur] + SplitFrom(Out, "", rest[1..])
    else SplitFrom(Advance(state, rest[0]), cur + [rest[0]], rest[1..])
  }

  /** The segments of a command line. */
  function Segments(s: string): (segs: seq<string>)
    ensures |segs| > 0
  {
    SplitFrom(Out, "", s)
  }

  lemma MaskAt(s: string, i: nat)
    requires i < |s|
    ensures Mask(s)[i] == Quoted(StateAfter(Out, s[..i]), s[i])
  {
    MaskStep(s, i);
    assert s == s[..i + 1] + s[i + 1..];
    MaskAppend(Out, s[..i + 1], s[i + 1..]);
  }

  /** Outside quotes the bytes of a separator are themselves unquoted, and leave the state Out. */
  lemma StateAfterPair(s: string, i: nat)
    requires i + 1 < |s| && StateAfter(Out, s[..i]) == Out && !IsQuote(s[i]) && !IsQuote(s[i + 1])
    ensures StateAfter(Out, s[..i + 1]) == Out && StateAfter(Out, s[..i + 2]) == Out
  {
    MaskStep(s, i);
    MaskStep(s, i + 1);
  }

  /** splitShellSegments: the index loop over the mask. */
  method SplitShellSegments(s: string) returns (segs: seq<string>)
    ensures segs == Segments(s)
  {
    hide MaskFrom, StateAfter, Mask, SplitFrom;
    var mask := QuoteMask(s);
    segs := [];
    var start, i := 0, 0;
    SplitStart(s);
    while i < |s|
      invariant 0 <= start <= i <= |s| && mask[..] == Mask(s)
      invariant Segments(s) == segs + SplitFrom(StateAfter(Out, s[..i]), s[start..i], s[i..])
      decreases |s| - i
    {
      ghost var state := StateAfter(Out, s[..i]);
      MaskAt(s, i);
      MaskStep(s, i);
      assert mask[i] == mask[..][i] == Mask(s)[i];
      SplitStep(state, s, start, i);
      if mask[i] {
        i := i + 1;
      } else {
        if i + 1 < |s| {
          MaskAt(s, i + 1);
          assert mask[i + 1] == mask[..][i + 1] == Mask(s)[i + 1];
        }
        if i + 1 < |s| && !mask[i + 1] && (s[i..i + 2] == "&&" || s[i..i + 2] == "||") {
          assert PairAt(s, i) && s[i..i + 2][0] == s[i] && s[i..i + 2][1] == s[i + 1];
          StateAfterPair(s, i);
          segs := segs + [s[start..i]];
          i := i + 2;
          start := i;
        } else if s[i] == ';' || s[i] == '|' || s[i] == '\n' {
          segs := segs + [s[start..i]];
          i := i + 1;
          start := i;
        } else {
          i := i + 1;
        }
      }
    }
    SplitEnd(StateAfter(Out, s[..i]), s, start);
    segs := segs + [s[start..]];
  }

  lemma SplitStart(s: string)
    ensures Segments(s) == [] + SplitFrom(StateAfter(Out, s[..0]), s[0..0], s[0..])
  {
    assert s[0..] == s;
  }

  lemma SplitEnd(state: Quote, s: string, start: nat)
    requires start <= |s|
    ensures SplitFrom(state, s[start..|s|], s[|s|..]) == [s[start..]]
  {
    assert s[start..|s|] == s[start..];
  }

  predicate PairAt(s: string, i: nat) {
    i + 1 < |s| && (s[i..i + 2] == "&&" || s[i..i + 2] == "||")
  }

  predicate SingleAt(s: string, i: nat) {
    i < |s| && (s[i] == ';' || s[i] == '|' || s[i] == '\n')
  }

  /** One step of the splitter, read off the bytes at index i. */
  lemma SplitStep(state: Quote, s: string, start: nat, i: nat)
    requires start <= i < |s|
    ensures state.Out? && PairAt(s, i) ==>
      SplitFrom(state, s[start..i], s[i..]) == [s[start..i]] + SplitFrom(Out, s[i + 2..i + 2], s[i + 2..])
    ensures state.Out? && !PairAt(s, i) && SingleAt(s, i) ==>
      SplitFrom(state, s[start..i], s[i..]) == [s[start..i]] + SplitFrom(Out, s[i + 1..i + 1], s[i + 1..])
    ensures state.In? || (!PairAt(s, i) && !SingleAt(s, i)) ==>
      SplitFrom(state, s[start..i], s[i..]) == SplitFrom(Advance(state, s[i]), s[start..i + 1], s[i + 1..])
  {
    var rest := s[i..];
    assert rest[1..] == s[i + 1..] && s[start..i] + [rest[0]] == s[start..i + 1] && s[i + 1..i + 1] == "";
    assert PairAt(s, i) <==> PairAhead(Out, rest) by {
      if i + 1 < |s| {
        assert s[i..i + 2] == [s[i], s[i + 1]];
      }
    }
    if i + 1 < |s| {
      assert rest[2..] == s[i + 2..] && s[i + 2..i + 2] == "";
    }
  }
}
