/**
 * Rendering a fill-in-the-gap question for play: the text is split around its
 * runs of `_`; each run becomes a dropdown bound to the next gap number and
 * listing that gap's options, and each non-empty piece of text between runs is
 * shown as it is.
 */
module GapDropdowns {
  import opened Wrappers
  import opened JsText
  import opened GapEncoding

  predicate NoUnderscore(p: string) {
    forall k :: 0 <= k < |p| ==> p[k] != '_'
  }

  /** `/^_{1,}$/` matches `p`: a non-empty run of underscores only. */
  predicate IsGapRun(p: string) {
    |p| > 0 && forall k :: 0 <= k < |p| ==> p[k] == '_'
  }

  /** The length of the longest prefix of `s` without `_`. */
  function TextRun(s: string): (n: nat)
    ensures n <= |s| && NoUnderscore(s[..n])
    ensures n < |s| ==> s[n] == '_'
  {
    if |s| > 0 && s[0] != '_' then
      var m := TextRun(s[1..]);
      assert s[..1 + m] == [s[0]] + s[1..][..m];
      1 + m
    else 0
  }

  /** The length of the longest prefix of `s` made of `_`. */
  function UnderscoreRun(s: string): (n: nat)
    ensures n <= |s| && forall k :: 0 <= k < n ==> s[k] == '_'
    ensures n < |s| ==> s[n] != '_'
  {
    if |s| > 0 && s[0] == '_' then 1 + UnderscoreRun(s[1..]) else 0
  }

  /** `ps.join('')`. */
  function Concat(ps: seq<string>): string {
    if |ps| == 0 then [] else ps[0] + Concat(ps[1..])
  }

  /** Text pieces at even positions, runs at odd ones, starting and ending with text. */
  predicate Alternates(r: seq<string>) {
    && |r| % 2 == 1
    && forall k :: 0 <= k < |r| ==> if k % 2 == 0 then NoUnderscore(r[k]) else IsGapRun(r[k])
  }

  lemma ConsAlternates(a: string, b: string, tail: seq<string>)
    requires NoUnderscore(a) && IsGapRun(b) && Alternates(tail)
    ensures Alternates([a, b] + tail)
  {
    var r := [a, b] + tail;
    forall k | 2 <= k < |r| ensures if k % 2 == 0 then NoUnderscore(r[k]) else IsGapRun(r[k]) {
      assert r[k] == tail[k - 2];
    }
  }

  /**
   * `text.split(/(_{1,})/)`: the pieces between the runs of `_` with, because the
   * pattern captures, each run itself between them.  Pieces at even positions are
   * text (possibly empty), pieces at odd positions are runs.
   */
  function SplitRuns(s: string): (r: seq<string>)
    ensures Alternates(r)
    decreases |s|
  {
    var i := TextRun(s);
    if i == |s| then
      assert s[..i] == s;
      [s]
    else
      var rest := s[i..];
      var j := UnderscoreRun(rest);
      var tail := SplitRuns(rest[j..]);
      assert IsGapRun(rest[..j]);
      ConsAlternates(s[..i], rest[..j], tail);
      [s[..i], rest[..j]] + tail
  }

  /** Joining the pieces of the split gives the text back. */
  lemma {:induction false} ConcatSplitRuns(s: string)
    ensures Concat(SplitRuns(s)) == s
    decreases |s|
  {
    var i := TextRun(s);
    if i == |s| {
      assert s[..i] == s;
      assert Concat([s]) == s + Concat([]);
    } else {
      var rest := s[i..];
      var j := UnderscoreRun(rest);
      var tail := SplitRuns(rest[j..]);
      assert SplitRuns(s) == [s[..i], rest[..j]] + tail;
      ConcatSplitRuns(rest[j..]);
      ConcatCons(s[..i], rest[..j], tail);
      assert Concat(tail) == rest[j..];
      assert rest[..j] + rest[j..] == rest;
      assert s[..i] + rest == s;
    }
  }

  lemma ConcatCons(a: string, b: string, tail: seq<string>)
    ensures Concat([a, b] + tail) == a + (b + Concat(tail))
  {
    var r := [a, b] + tail;
    assert r[1..] == [b] + tail;
    assert ([b] + tail)[1..] == tail;
  }

  /** The number of pieces that are runs of `_`. */
  function RunCount(ps: seq<string>): nat {
    if |ps| == 0 then 0 else (if IsGapRun(ps[0]) then 1 else 0) + RunCount(ps[1..])
  }

  /** A prefix without `_` adds no gap. */
  lemma {:induction false} CountGapsSkipText(s: string, i: nat)
    requires i <= |s| && NoUnderscore(s[..i])
    ensures CountGaps(s) == CountGaps(s[i..])
    decreases i
  {
    if i > 0 {
      assert s[0] == s[..i][0];
      assert !RunEndsAt(s, 0);
      assert s[1..][..i - 1] == s[1..i];
      assert forall k :: 0 <= k < i - 1 ==> s[1..i][k] == s[..i][k + 1];
      CountGapsSkipText(s[1..], i - 1);
      assert s[1..][i - 1..] == s[i..];
    }
  }

  /** A maximal leading run of `_` is one gap. */
  lemma {:induction false} CountGapsSkipRun(s: string, j: nat)
    requires 0 < j <= |s| && (forall k :: 0 <= k < j ==> s[k] == '_')
    requires j < |s| ==> s[j] != '_'
    ensures CountGaps(s) == 1 + CountGaps(s[j..])
    decreases j
  {
    if j == 1 {
      assert RunEndsAt(s, 0);
    } else {
      assert !RunEndsAt(s, 0);
      CountGapsSkipRun(s[1..], j - 1);
      assert s[1..][j - 1..] == s[j..];
    }
  }

  /** The split has exactly one run piece per gap `countGaps` counts. */
  lemma {:induction false} RunCountSplitRuns(s: string)
    ensures RunCount(SplitRuns(s)) == CountGaps(s)
    decreases |s|
  {
    var i := TextRun(s);
    if i == |s| {
      assert s[..i] == s;
      assert !IsGapRun(s) by {
        if |s| > 0 { assert s[0] == s[..i][0]; }
      }
      CountGapsSkipText(s, i);
      assert s[i..] == [];
    } else {
      var rest := s[i..];
      var j := UnderscoreRun(rest);
      RunCountSplitRuns(rest[j..]);
      assert !IsGapRun(s[..i]) by {
        if i > 0 { assert s[..i][0] != '_'; }
      }
      assert IsGapRun(rest[..j]);
      RunCountCons(s[..i], rest[..j], SplitRuns(rest[j..]));
      CountGapsSkipText(s, i);
      CountGapsSkipRun(rest, j);
    }
  }

  /** A text piece and a run before the rest of the split add one run. */
  lemma RunCountCons(a: string, b: string, tail: seq<string>)
    requires !IsGapRun(a) && IsGapRun(b)
    ensures RunCount([a, b] + tail) == 1 + RunCount(tail)
  {
    var r := [a, b] + tail;
    assert r[1..] == [b] + tail;
    assert ([b] + tail)[1..] == tail;
  }

  // ---------------------------------------------------------------------------
  // Rendering

  /** What the component shows for one piece: a text span or a gap dropdown. */
  datatype Piece =
    | Span(text: string)
    | Select(gap: nat, entries: seq<GapEntry>, value: Option<int>, incorrect: bool, correct: bool, disabled: bool)

  /**
   * The play state the component reads.  `selections` maps a gap to its chosen
   * global index; a gap that is absent or `None` (`undefined` / `null`) has no choice.
   */
  datatype GapView = GapView(
    options: seq<FlatOption>,
    selections: map<nat, Option<int>>,
    tempIncorrect: seq<nat>,
    verifiedCorrect: seq<nat>,
    processing: bool,
    revealed: bool)

  /** `gapSelections[g] ?? ...`: the choice for gap `g`, if any. */
  function Selected(selections: map<nat, Option<int>>, g: nat): Option<int> {
    if g in selections then selections[g] else None
  }

  /** `gapMap.get(g) || []`. */
  function OptionsForGap(options: seq<FlatOption>, g: nat): seq<GapEntry> {
    var groups := GroupOptionsByGap(options);
    if g in groups then groups[g] else []
  }

  /** The dropdown of gap `g`. */
  function SelectFor(g: nat, view: GapView): Piece {
    Select(g, OptionsForGap(view.options, g), Selected(view.selections, g),
           g in view.tempIncorrect, g in view.verifiedCorrect, view.processing || view.revealed)
  }

  /** The gap numbers of the dropdowns, in order. */
  function SelectGaps(ps: seq<Piece>): seq<nat> {
    if |ps| == 0 then [] else (if ps[0].Select? then [ps[0].gap] else []) + SelectGaps(ps[1..])
  }

  /** The texts of the spans, in order. */
  function SpanTexts(ps: seq<Piece>): seq<string> {
    if |ps| == 0 then [] else (if ps[0].Span? then [ps[0].text] else []) + SpanTexts(ps[1..])
  }

  /** The pieces of the split that are not runs, in order. */
  function TextPieces(ps: seq<string>): seq<string> {
    if |ps| == 0 then [] else (if IsGapRun(ps[0]) then [] else [ps[0]]) + TextPieces(ps[1..])
  }

  /** `[c, c + 1, ..., c + n - 1]`. */
  function Range(c: nat, n: nat): (r: seq<nat>)
    ensures |r| == n && forall k :: 0 <= k < n ==> r[k] == c + k
    decreases n
  {
    if n == 0 then [] else [c] + Range(c + 1, n - 1)
  }

  /** The loop over the split pieces with `gapCounter == counter`. */
  function RenderFrom(parts: seq<string>, counter: nat, view: GapView): (r: seq<Piece>)
    ensures forall k :: 0 <= k < |r| && r[k].Select? ==> r[k] == SelectFor(r[k].gap, view)
    ensures forall k :: 0 <= k < |r| && r[k].Span? ==> r[k].text != [] && r[k].text in parts
  {
    if |parts| == 0 then []
    else
      var rest := RenderFrom(parts[1..], if IsGapRun(parts[0]) then counter + 1 else counter, view);
      var head := RenderHead(parts[0], counter, view);
      assert forall k :: |head| <= k < |head + rest| ==> (head + rest)[k] == rest[k - |head|];
      head + rest
  }

  /** What one piece renders to. */
  function RenderHead(part: string, counter: nat, view: GapView): seq<Piece> {
    if IsGapRun(part) then [SelectFor(counter, view)]
    else if part != [] then [Span(part)]
    else []
  }

  /** The dropdowns are numbered consecutively from `counter`, one per run. */
  lemma {:induction false} RenderSelectGaps(parts: seq<string>, counter: nat, view: GapView)
    ensures SelectGaps(RenderFrom(parts, counter, view)) == Range(counter, RunCount(parts))
  {
    if |parts| > 0 {
      var next := if IsGapRun(parts[0]) then counter + 1 else counter;
      var rest := RenderFrom(parts[1..], next, view);
      var head := RenderHead(parts[0], counter, view);
      assert RenderFrom(parts, counter, view) == head + rest;
      RenderSelectGaps(parts[1..], next, view);
      SelectGapsConcat(head, rest);
      if IsGapRun(parts[0]) {
        assert SelectGaps(head) == [counter];
        assert Range(counter, RunCount(parts)) == [counter] + Range(counter + 1, RunCount(parts[1..]));
      } else {
        assert SelectGaps(head) == [];
      }
    }
  }

  /** The spans are the non-empty text pieces, in order. */
  lemma {:induction false} RenderSpanTexts(parts: seq<string>, counter: nat, view: GapView)
    ensures SpanTexts(RenderFrom(parts, counter, view)) == NonEmpty(TextPieces(parts))
  {
    if |parts| > 0 {
      var next := if IsGapRun(parts[0]) then counter + 1 else counter;
      var rest := RenderFrom(parts[1..], next, view);
      var head := RenderHead(parts[0], counter, view);
      assert RenderFrom(parts, counter, view) == head + rest;
      RenderSpanTexts(parts[1..], next, view);
      SpanTextsConcat(head, rest);
      var first := if IsGapRun(parts[0]) then [] else [parts[0]];
      assert TextPieces(parts) == first + TextPieces(parts[1..]);
      NonEmptyConcat(first, TextPieces(parts[1..]));
      if IsGapRun(parts[0]) {
        assert SpanTexts(head) == [];
        assert NonEmpty(first) == [];
      } else if parts[0] != [] {
        assert SpanTexts(head) == [parts[0]];
        assert NonEmpty(first) == [parts[0]] + NonEmpty([]);
      } else {
        assert SpanTexts(head) == [];
        assert NonEmpty(first) == [] + NonEmpty([]);
      }
    }
  }

  lemma {:induction false} NonEmptyConcat(a: seq<string>, b: seq<string>)
    ensures NonEmpty(a + b) == NonEmpty(a) + NonEmpty(b)
  {
    if |a| > 0 {
      var head := if a[0] == [] then [] else [a[0]];
      assert (a + b)[0] == a[0];
      assert (a + b)[1..] == a[1..] + b;
      assert NonEmpty(a + b) == head + NonEmpty(a[1..] + b);
      assert NonEmpty(a) == head + NonEmpty(a[1..]);
      NonEmptyConcat(a[1..], b);
      assert head + (NonEmpty(a[1..]) + NonEmpty(b)) == (head + NonEmpty(a[1..])) + NonEmpty(b);
    } else {
      assert a + b == b;
    }
  }

  lemma {:induction false} SelectGapsConcat(a: seq<Piece>, b: seq<Piece>)
    ensures SelectGaps(a + b) == SelectGaps(a) + SelectGaps(b)
  {
    if |a| > 0 {
      assert (a + b)[1..] == a[1..] + b;
      SelectGapsConcat(a[1..], b);
    } else {
      assert a + b == b;
    }
  }

  lemma {:induction false} SpanTextsConcat(a: seq<Piece>, b: seq<Piece>)
    ensures SpanTexts(a + b) == SpanTexts(a) + SpanTexts(b)
  {
    if |a| > 0 {
      assert (a + b)[1..] == a[1..] + b;
      SpanTextsConcat(a[1..], b);
    } else {
      assert a + b == b;
    }
  }

  /** The whole component: split the text, then render from gap 0. */
  function RenderGapQuestion(text: string, view: GapView): seq<Piece> {
    RenderFrom(SplitRuns(text), 0, view)
  }

  /**
   * The k-th dropdown in text order is bound to gap k, and there are exactly
   * `countGaps(text)` of them.
   */
  lemma DropdownsPerGap(text: string, view: GapView)
    ensures SelectGaps(RenderGapQuestion(text, view)) == Range(0, CountGaps(text))
  {
    RunCountSplitRuns(text);
    RenderSelectGaps(SplitRuns(text), 0, view);
  }

  /** The dropdown of gap `g` lists exactly the entries of the options marked with gap `g`, in option order. */
  lemma {:induction false} DropdownEntries(view: GapView, g: nat)
    ensures SelectFor(g, view).entries == EntriesOf(view.options, g)
  {
    GroupOptionsByGapSpec(view.options, g);
  }

  /** The spans are the non-empty text pieces between the runs, in order; no span holds `_`. */
  lemma SpansAreText(text: string, view: GapView)
    ensures SpanTexts(RenderGapQuestion(text, view)) == NonEmpty(TextPieces(SplitRuns(text)))
    ensures forall p :: p in SpanTexts(RenderGapQuestion(text, view)) ==> p != [] && NoUnderscore(p)
  {
    var parts := SplitRuns(text);
    RenderSpanTexts(parts, 0, view);
    TextPiecesHaveNoUnderscore(parts);
  }

  lemma {:induction false} TextPiecesHaveNoUnderscore(parts: seq<string>)
    requires forall k :: 0 <= k < |parts| ==> NoUnderscore(parts[k]) || IsGapRun(parts[k])
    ensures forall p :: p in TextPieces(parts) ==> NoUnderscore(p)
  {
    if |parts| > 0 {
      TextPiecesHaveNoUnderscore(parts[1..]);
      assert forall k :: 0 <= k < |parts[1..]| ==> parts[1..][k] == parts[k + 1];
    }
  }

  /** Every dropdown is disabled exactly while processing or revealed. */
  lemma DropdownsDisabled(text: string, view: GapView)
    ensures forall p :: p in RenderGapQuestion(text, view) && p.Select? ==> (p.disabled <==> view.processing || view.revealed)
  {
  }

  // ---------------------------------------------------------------------------
  // Choosing an entry

  /** The `value` attribute of an entry's `<option>`: its global index in decimal. */
  function OptionValue(i: int): (r: string)
    ensures r != []
  {
    if i < 0 then "-" + Decimal(-i) else Decimal(i)
  }

  /** `Number(v)` of a value the dropdown can report (the placeholder's '' or an entry's value). */
  function NumberOf(v: string): int {
    if |v| > 0 && v[0] == '-' && AllDigits(v[1..]) then -(ParseDecimal(v[1..]) as int)
    else if AllDigits(v) then ParseDecimal(v)
    else 0
  }

  /** `onChange`: the placeholder reports `null`, any other choice its number. */
  function OnGapChange(v: string): Option<int> {
    if v == "" then None else Some(NumberOf(v))
  }

  /** Choosing the placeholder reports no choice; choosing an entry reports its global index. */
  lemma ChoiceReportsIndex(i: int)
    ensures OnGapChange("") == None
    ensures OnGapChange(OptionValue(i)) == Some(i)
  {
    if i < 0 {
      NegativeValueReadBack(i);
    } else {
      NonNegativeValueReadBack(i);
    }
  }

  lemma NegativeValueReadBack(i: int)
    requires i < 0
    ensures NumberOf(OptionValue(i)) == i
  {
    ParseDecimalOfDecimal(-i);
    MinusDigitsReadBack(Decimal(-i));
  }

  /** A minus sign followed by digits reads back as the negated number of the digits. */
  lemma MinusDigitsReadBack(ds: string)
    requires |ds| > 0 && AllDigits(ds)
    ensures NumberOf("-" + ds) == -(ParseDecimal(ds) as int)
  {
    assert ("-" + ds)[1..] == ds;
  }

  lemma NonNegativeValueReadBack(i: int)
    requires i >= 0
    ensures NumberOf(OptionValue(i)) == i
  {
    var v := Decimal(i);
    assert IsDigit(v[0]);
    ParseDecimalOfDecimal(i);
  }
}
