/**
 * The fill-in-the-gap codec: a question whose text holds runs of `_` (the gaps)
 * stores, for each gap, a list of candidate options.  On the server every option
 * is kept in ONE flat list; the gap an option belongs to is recorded as a text
 * prefix `__G<gap number>__`, and the per-gap explanations travel as one JSON
 * object keyed by gap number (modelled as a `map<nat, string>`).
 */
module GapEncoding {
  import opened Wrappers
  import opened JsText

  /** One candidate of one gap, as the editor holds it (`image_url` '' when unset). */
  datatype GapOption = GapOption(text: string, isCorrect: bool, imageUrl: string)

  /** One gap of the editor: its candidates and its (possibly blank) explanation. */
  datatype Gap = Gap(options: seq<GapOption>, explanation: string)

  /**
   * One stored option of a question.  `text` is `None` when the stored value is not
   * a string; `index` is the option's position field as stored.
   */
  datatype FlatOption = FlatOption(text: Option<string>, isCorrect: bool, imageUrl: string, index: int)

  /**
   * The `explanation` field of an encoded question: '' when no gap has an
   * explanation, otherwise the JSON object from gap number to explanation.
   * `NoExplanations` also stands for any text that does not parse to an object.
   */
  datatype Explanations = NoExplanations | GapExplanations(byGap: map<nat, string>)

  /** The result of `encodeGapOptions`. */
  datatype Encoded = Encoded(options: seq<FlatOption>, explanations: Explanations)

  /** One entry of `groupOptionsByGap`: the option, its text without the marker, and its `index`. */
  datatype GapEntry = GapEntry(option: FlatOption, labelText: string, globalIndex: int)

  // ---------------------------------------------------------------------------
  // Counting gaps

  /** Position `k` of `s` is the last `_` of a run of underscores. */
  predicate RunEndsAt(s: string, k: int) {
    0 <= k < |s| && s[k] == '_' && (k + 1 == |s| || s[k + 1] != '_')
  }

  /**
   * `countGaps`: the number of matches of the global regular expression `/_{1,}/g`,
   * that is, the number of maximal runs of `_` (counted here by their last position).
   */
  function CountGaps(s: string): nat
  {
    if |s| == 0 then 0
    else (if RunEndsAt(s, 0) then 1 else 0) + CountGaps(s[1..])
  }

  predicate HasUnderscore(s: string) {
    exists k :: 0 <= k < |s| && s[k] == '_'
  }

  /** A text has no gap exactly when it has no underscore (`/_{1,}/.test(text)` is false). */
  lemma {:induction false} CountGapsZeroIff(s: string)
    ensures CountGaps(s) == 0 <==> !HasUnderscore(s)
  {
    if |s| > 0 {
      CountGapsZeroIff(s[1..]);
      if HasUnderscore(s[1..]) {
        var k :| 0 <= k < |s[1..]| && s[1..][k] == '_';
        assert s[k + 1] == '_';
      }
      if HasUnderscore(s) && s[0] != '_' {
        var k :| 0 <= k < |s| && s[k] == '_';
        assert s[1..][k - 1] == '_';
      }
    }
  }

  // ---------------------------------------------------------------------------
  // The `__G<n>__` marker

  const MarkerOpen: string := "__G"
  const MarkerClose: string := "__"

  /** The encoded text of an option of gap `g`: "__G" + g + "__" + text. */
  function MarkerText(g: nat, t: string): string {
    MarkerOpen + Decimal(g) + MarkerClose + t
  }

  /** The length of the digit run after "__G", when the text starts with "__G". */
  function DigitsAfterOpen(t: string): nat
    requires StartsWith(t, MarkerOpen)
  {
    DigitRun(t[|MarkerOpen|..])
  }

  /** `/^__G\d+__/.test(t)`: the text starts with a complete gap marker. */
  predicate HasMarkerPrefix(t: string) {
    && StartsWith(t, MarkerOpen)
    && DigitsAfterOpen(t) > 0
    && StartsWith(t[|MarkerOpen| + DigitsAfterOpen(t)..], MarkerClose)
  }

  /**
   * `t.match(/^__G(\d+)__(.*)$/)`: the gap number and the text after the marker.
   * `.` does not match a line terminator and `$` only matches at the very end,
   * so a remainder holding a line terminator makes the match fail.
   */
  function ParseMarker(t: string): Option<(nat, string)>
  {
    if HasMarkerPrefix(t) then
      var n := DigitsAfterOpen(t);
      var digits := t[|MarkerOpen|..|MarkerOpen| + n];
      var rest := t[|MarkerOpen| + n + |MarkerClose|..];
      if NoLineTerminator(rest) then
        assert AllDigits(digits) by { assert digits == t[|MarkerOpen|..][..n]; }
        Some((ParseDecimal(digits), rest))
      else None
    else None
  }

  /**
   * The match succeeds exactly when the text starts with a complete marker and the
   * rest has no line terminator; the text is then the marker, for a run of digits
   * denoting the gap number, followed by the rest.
   */
  lemma ParseMarkerSpec(t: string)
    ensures ParseMarker(t).Some? <==> HasMarkerPrefix(t) && NoLineTerminator(t[|MarkerOpen| + DigitsAfterOpen(t) + |MarkerClose|..])
    ensures ParseMarker(t).Some? ==> exists ds :: (|ds| > 0 && AllDigits(ds) && ParseDecimal(ds) == ParseMarker(t).value.0
                                                   && t == MarkerOpen + ds + MarkerClose + ParseMarker(t).value.1)
    ensures ParseMarker(t).Some? ==> NoLineTerminator(ParseMarker(t).value.1)
  {
    if ParseMarker(t).Some? {
      var n := DigitsAfterOpen(t);
      var digits := t[|MarkerOpen|..|MarkerOpen| + n];
      var rest := t[|MarkerOpen| + n + |MarkerClose|..];
      assert AllDigits(digits) by { assert digits == t[|MarkerOpen|..][..n]; }
      assert t == MarkerOpen + digits + MarkerClose + rest by {
        assert t[..|MarkerOpen|] == MarkerOpen;
        assert t[|MarkerOpen| + n..][..|MarkerClose|] == MarkerClose;
        assert t == t[..|MarkerOpen|] + t[|MarkerOpen|..|MarkerOpen| + n]
                    + t[|MarkerOpen| + n..|MarkerOpen| + n + |MarkerClose|] + t[|MarkerOpen| + n + |MarkerClose|..];
      }
    }
  }

  /** The digit run of `ds + rest` is exactly `ds` when `rest` does not start with a digit. */
  lemma {:induction false} DigitRunOfDigits(ds: string, rest: string)
    requires AllDigits(ds)
    requires rest == [] || !IsDigit(rest[0])
    ensures DigitRun(ds + rest) == |ds|
  {
    if |ds| > 0 {
      assert (ds + rest)[1..] == ds[1..] + rest;
      DigitRunOfDigits(ds[1..], rest);
    }
  }

  /** An encoded option text starts with a complete marker, whose digits end where the closing `__` starts. */
  lemma MarkerTextHasPrefix(g: nat, t: string)
    ensures HasMarkerPrefix(MarkerText(g, t))
    ensures DigitsAfterOpen(MarkerText(g, t)) == |Decimal(g)|
  {
    var d := Decimal(g);
    var m := MarkerText(g, t);
    assert StartsWith(m, MarkerOpen) by { assert m[..3] == MarkerOpen; }
    assert m[3..] == d + (MarkerClose + t);
    DigitRunOfDigits(d, MarkerClose + t);
    assert m[3 + |d|..] == MarkerClose + t;
  }

  /** Parsing an encoded option text gives back its gap number and its text, unless the text has a line terminator. */
  lemma ParseMarkerText(g: nat, t: string)
    ensures ParseMarker(MarkerText(g, t)) == if NoLineTerminator(t) then Some((g, t)) else None
  {
    var d := Decimal(g);
    var m := MarkerText(g, t);
    MarkerTextHasPrefix(g, t);
    assert m[3..3 + |d|] == d;
    assert m[3 + |d| + 2..] == t;
    ParseDecimalOfDecimal(g);
  }

  /** `stripGapMarker`: the text after a complete marker, or the text unchanged. */
  function StripGapMarker(t: string): (r: string)
    ensures ParseMarker(t).None? ==> r == t
    ensures ParseMarker(t).Some? ==> exists ds :: (|ds| > 0 && AllDigits(ds) && t == MarkerOpen + ds + MarkerClose + r)
  {
    ParseMarkerSpec(t);
    match ParseMarker(t)
    case Some((_, rest)) => rest
    case None => t
  }

  /** Stripping the marker off an encoded option text gives the original text (no line terminators in it). */
  lemma StripMarkerText(g: nat, t: string)
    requires NoLineTerminator(t)
    ensures StripGapMarker(MarkerText(g, t)) == t
  {
    ParseMarkerText(g, t);
  }

  // ---------------------------------------------------------------------------
  // Encoding

  /** The stored form of candidate `o` of gap `g` at flat position `i`. */
  function FlatOf(g: nat, o: GapOption, i: nat): FlatOption {
    FlatOption(Some(MarkerText(g, o.text)), o.isCorrect, o.imageUrl, i)
  }

  /** Where the candidates of gap `g` start in the flat list: the number of candidates of gaps before it. */
  function Offset(gaps: seq<Gap>, g: nat): nat
    requires g <= |gaps|
  {
    if g == 0 then 0 else Offset(gaps, g - 1) + |gaps[g - 1].options|
  }

  lemma {:induction false} OffsetMonotone(gaps: seq<Gap>, g: nat, h: nat)
    requires g <= h <= |gaps|
    ensures Offset(gaps, g) <= Offset(gaps, h)
    ensures g < h ==> Offset(gaps, g) + |gaps[g].options| <= Offset(gaps, h)
    decreases h - g
  {
    if g < h {
      OffsetMonotone(gaps, g, h - 1);
    }
  }

  /** The flat options of one gap, numbered from `base`. */
  function EncodeGap(g: nat, opts: seq<GapOption>, base: nat): (r: seq<FlatOption>)
    ensures |r| == |opts|
    ensures forall k :: 0 <= k < |opts| ==> r[k] == FlatOf(g, opts[k], base + k)
  {
    if |opts| == 0 then [] else [FlatOf(g, opts[0], base)] + EncodeGap(g, opts[1..], base + 1)
  }

  /** The flat options of gaps `g`, `g + 1`, ... in order: the body of the encoder's loop. */
  function EncodeFrom(gaps: seq<Gap>, g: nat): (r: seq<FlatOption>)
    requires g <= |gaps|
    ensures Offset(gaps, g) + |r| == Offset(gaps, |gaps|)
    ensures forall k :: 0 <= k < |r| ==> r[k].index == Offset(gaps, g) + k
    decreases |gaps| - g
  {
    if g == |gaps| then []
    else EncodeGap(g, gaps[g].options, Offset(gaps, g)) + EncodeFrom(gaps, g + 1)
  }

  /** The encoder's loop body for gap `g`: its own options, then the rest, which start after them. */
  lemma EncodeFromUnfold(gaps: seq<Gap>, g: nat)
    requires g < |gaps|
    ensures EncodeFrom(gaps, g) == EncodeGap(g, gaps[g].options, Offset(gaps, g)) + EncodeFrom(gaps, g + 1)
    ensures Offset(gaps, g + 1) == Offset(gaps, g) + |gaps[g].options|
  {
  }

  /** An element of the rest of the flat list reappears after gap `g`'s own options. */
  lemma ShiftIntoTail(gaps: seq<Gap>, g: nat, i: nat)
    requires g < |gaps| && i < |EncodeFrom(gaps, g + 1)|
    ensures |gaps[g].options| + i < |EncodeFrom(gaps, g)|
    ensures EncodeFrom(gaps, g)[|gaps[g].options| + i] == EncodeFrom(gaps, g + 1)[i]
  {
    var head := EncodeGap(g, gaps[g].options, Offset(gaps, g));
    var tail := EncodeFrom(gaps, g + 1);
    EncodeFromUnfold(gaps, g);
    assert (head + tail)[|head| + i] == tail[i];
  }

  /** Gap `g`'s own options open the flat list from `g`. */
  lemma HeadOfFrom(gaps: seq<Gap>, g: nat, j: nat)
    requires g < |gaps| && j < |gaps[g].options|
    ensures j < |EncodeFrom(gaps, g)| && EncodeFrom(gaps, g)[j] == EncodeGap(g, gaps[g].options, Offset(gaps, g))[j]
  {
    var head := EncodeGap(g, gaps[g].options, Offset(gaps, g));
    EncodeFromUnfold(gaps, g);
    assert (head + EncodeFrom(gaps, g + 1))[j] == head[j];
  }

  /** Candidate `j` of gap `h` sits at flat position `Offset(gaps, h) + j`, counted from gap `g`. */
  lemma {:induction false} EncodeFromPosition(gaps: seq<Gap>, g: nat, h: nat, j: nat)
    requires g <= h < |gaps| && j < |gaps[h].options|
    ensures Offset(gaps, g) <= Offset(gaps, h)
    ensures Offset(gaps, h) + j - Offset(gaps, g) < |EncodeFrom(gaps, g)|
    ensures EncodeFrom(gaps, g)[Offset(gaps, h) + j - Offset(gaps, g)] == EncodeGap(h, gaps[h].options, Offset(gaps, h))[j]
    decreases h - g
  {
    if h == g {
      HeadOfFrom(gaps, g, j);
    } else {
      EncodeFromPosition(gaps, g + 1, h, j);
      var i := Offset(gaps, h) + j - Offset(gaps, g + 1);
      ShiftIntoTail(gaps, g, i);
      assert Offset(gaps, g + 1) == Offset(gaps, g) + |gaps[g].options|;
      assert Offset(gaps, h) + j - Offset(gaps, g) == |gaps[g].options| + i;
    }
  }

  /** The explanations `encodeGapOptions` keeps: the trimmed, non-blank ones, by gap number. */
  function ExplanationMap(gaps: seq<Gap>): map<nat, string> {
    map g: nat | g < |gaps| && !IsBlank(gaps[g].explanation) :: Trim(gaps[g].explanation)
  }

  /** The `explanations` field `encodeGapOptions` produces: '' exactly when every explanation is blank. */
  function EncodeExplanations(gaps: seq<Gap>): Explanations
  {
    var m := ExplanationMap(gaps);
    if |m| == 0 then NoExplanations else GapExplanations(m)
  }

  /**
   * `encodeGapOptions`: all candidates of all gaps in one list, gap by gap, each
   * text prefixed with its gap's marker and numbered by flat position.
   */
  function EncodeGapOptions(gaps: seq<Gap>): (r: Encoded)
    ensures |r.options| == Offset(gaps, |gaps|)
    ensures forall k :: 0 <= k < |r.options| ==> r.options[k].index == k
  {
    Encoded(EncodeOptions(gaps), EncodeExplanations(gaps))
  }

  /** The `options` field `encodeGapOptions` produces. */
  function EncodeOptions(gaps: seq<Gap>): (r: seq<FlatOption>)
    ensures |r| == Offset(gaps, |gaps|)
  {
    EncodeFrom(gaps, 0)
  }

  /** Candidate `j` of gap `g` is stored at flat position `Offset(gaps, g) + j`, tagged with `g`. */
  lemma EncodedPosition(gaps: seq<Gap>, g: nat, j: nat)
    requires g < |gaps| && j < |gaps[g].options|
    ensures Offset(gaps, g) + j < |EncodeOptions(gaps)|
    ensures EncodeOptions(gaps)[Offset(gaps, g) + j] == FlatOf(g, gaps[g].options[j], Offset(gaps, g) + j)
  {
    EncodeFromPosition(gaps, 0, g, j);
    assert EncodeGap(g, gaps[g].options, Offset(gaps, g))[j] == FlatOf(g, gaps[g].options[j], Offset(gaps, g) + j);
  }

  /** The stored explanations are exactly the trimmed non-blank ones, keyed by gap number. */
  lemma EncodedExplanation(gaps: seq<Gap>, g: nat)
    ensures EncodeExplanations(gaps) == NoExplanations <==> forall h :: 0 <= h < |gaps| ==> IsBlank(gaps[h].explanation)
    ensures EncodeExplanations(gaps).GapExplanations? ==>
              (g in EncodeExplanations(gaps).byGap <==> g < |gaps| && !IsBlank(gaps[g].explanation))
    ensures EncodeExplanations(gaps).GapExplanations? && g in EncodeExplanations(gaps).byGap ==>
              EncodeExplanations(gaps).byGap[g] == Trim(gaps[g].explanation)
  {
    ExplanationMapEmptyIff(gaps);
    assert |ExplanationMap(gaps)| == 0 <==> ExplanationMap(gaps) == map[];
  }

  lemma ExplanationMapEmptyIff(gaps: seq<Gap>)
    ensures ExplanationMap(gaps) == map[] <==> forall g :: 0 <= g < |gaps| ==> IsBlank(gaps[g].explanation)
  {
    var m := ExplanationMap(gaps);
    if m == map[] {
      forall g | 0 <= g < |gaps| ensures IsBlank(gaps[g].explanation) {
        assert g !in m;
      }
    } else {
      var g :| g in m;
    }
  }

  // ---------------------------------------------------------------------------
  // Grouping and decoding

  /** The gap number and the text after the marker of a stored option; `None` when it is skipped. */
  function OptionGap(o: FlatOption): Option<(nat, string)> {
    if o.text.Some? then ParseMarker(o.text.value) else None
  }

  /**
   * Reference definition: the entries of gap `g`, that is, the options whose
   * marker names `g`, in their original relative order.
   */
  function EntriesOf(options: seq<FlatOption>, g: nat): seq<GapEntry> {
    if |options| == 0 then []
    else EntryIf(options[0], g) + EntriesOf(options[1..], g)
  }

  /** The entry of `o` when `o` belongs to gap `g`, as a sequence of length at most one. */
  function EntryIf(o: FlatOption, g: nat): seq<GapEntry> {
    match OptionGap(o)
    case Some((n, labelText)) => if n == g then [GapEntry(o, labelText, o.index)] else []
    case None => []
  }

  lemma {:induction false} EntriesOfConcat(a: seq<FlatOption>, b: seq<FlatOption>, g: nat)
    ensures EntriesOf(a + b, g) == EntriesOf(a, g) + EntriesOf(b, g)
  {
    if |a| > 0 {
      assert (a + b)[0] == a[0];
      assert (a + b)[1..] == a[1..] + b;
      EntriesOfConcat(a[1..], b, g);
      assert EntriesOf(a + b, g) == EntryIf(a[0], g) + EntriesOf(a[1..] + b, g);
    } else {
      assert a + b == b;
    }
  }

  /** Every entry of gap `g` carries an option of the list, the text after its marker and its `index`. */
  lemma {:induction false} EntriesOfShape(options: seq<FlatOption>, g: nat, k: nat)
    requires k < |EntriesOf(options, g)|
    ensures EntriesOf(options, g)[k].option in options
    ensures OptionGap(EntriesOf(options, g)[k].option) == Some((g, EntriesOf(options, g)[k].labelText))
    ensures EntriesOf(options, g)[k].globalIndex == EntriesOf(options, g)[k].option.index
  {
    var head := EntryIf(options[0], g);
    if k < |head| {
      assert EntriesOf(options, g)[k] == head[k];
    } else {
      EntriesOfShape(options[1..], g, k - |head|);
      assert EntriesOf(options, g)[k] == EntriesOf(options[1..], g)[k - |head|];
    }
  }

  /** One step of the grouping loop: append the option's entry to its gap's list, creating it if needed. */
  function AddToGroup(groups: map<nat, seq<GapEntry>>, o: FlatOption): (r: map<nat, seq<GapEntry>>)
    ensures OptionGap(o).None? ==> r == groups
    ensures OptionGap(o).Some? ==> r.Keys == groups.Keys + {OptionGap(o).value.0}
  {
    match OptionGap(o)
    case None => groups
    case Some((n, labelText)) =>
      groups[n := (if n in groups then groups[n] else []) + [GapEntry(o, labelText, o.index)]]
  }

  function GroupFrom(groups: map<nat, seq<GapEntry>>, options: seq<FlatOption>): map<nat, seq<GapEntry>>
    decreases |options|
  {
    if |options| == 0 then groups else GroupFrom(AddToGroup(groups, options[0]), options[1..])
  }

  /** `groupOptionsByGap`: a map from gap number to that gap's entries. */
  function GroupOptionsByGap(options: seq<FlatOption>): map<nat, seq<GapEntry>> {
    GroupFrom(map[], options)
  }

  /** The grouping loop appends to every gap exactly the entries the reference definition selects. */
  lemma {:induction false} GroupFromSpec(groups: map<nat, seq<GapEntry>>, options: seq<FlatOption>, g: nat)
    ensures g in GroupFrom(groups, options) <==> g in groups || EntriesOf(options, g) != []
    ensures g in GroupFrom(groups, options) ==>
              GroupFrom(groups, options)[g] == (if g in groups then groups[g] else []) + EntriesOf(options, g)
    decreases |options|
  {
    if |options| > 0 {
      var next := AddToGroup(groups, options[0]);
      var before := if g in groups then groups[g] else [];
      var here, rest := EntryIf(options[0], g), EntriesOf(options[1..], g);
      AddToGroupAt(groups, options[0], g);
      GroupFromSpec(next, options[1..], g);
      GroupFromStep(groups, options, g);
      AppendTwice(groups, next, GroupFrom(next, options[1..]), g, here, rest);
    }
  }

  /** Two successive appends to gap `g` add the concatenation of what each added. */
  lemma AppendTwice(first: map<nat, seq<GapEntry>>, mid: map<nat, seq<GapEntry>>, last: map<nat, seq<GapEntry>>,
                    g: nat, here: seq<GapEntry>, rest: seq<GapEntry>)
    requires g in mid <==> g in first || here != []
    requires g in mid ==> mid[g] == (if g in first then first[g] else []) + here
    requires g in last <==> g in mid || rest != []
    requires g in last ==> last[g] == (if g in mid then mid[g] else []) + rest
    ensures g in last <==> g in first || here + rest != []
    ensures g in last ==> last[g] == (if g in first then first[g] else []) + (here + rest)
  {
    var before := if g in first then first[g] else [];
    assert (before + here) + rest == before + (here + rest);
  }

  /** One iteration of the grouping loop, and the matching step of the reference definition. */
  lemma GroupFromStep(groups: map<nat, seq<GapEntry>>, options: seq<FlatOption>, g: nat)
    requires |options| > 0
    ensures GroupFrom(groups, options) == GroupFrom(AddToGroup(groups, options[0]), options[1..])
    ensures EntriesOf(options, g) == EntryIf(options[0], g) + EntriesOf(options[1..], g)
  {
  }

  /** One grouping step adds to gap `g` exactly the option's entry for `g`, if any. */
  lemma AddToGroupAt(groups: map<nat, seq<GapEntry>>, o: FlatOption, g: nat)
    ensures g in AddToGroup(groups, o) <==> g in groups || EntryIf(o, g) != []
    ensures g in AddToGroup(groups, o) ==>
              AddToGroup(groups, o)[g] == (if g in groups then groups[g] else []) + EntryIf(o, g)
  {
  }

  /**
   * `groupOptionsByGap` keeps a gap exactly when some option names it, and lists
   * that gap's options in their original order, each with its `index` as global index.
   */
  lemma GroupOptionsByGapSpec(options: seq<FlatOption>, g: nat)
    ensures g in GroupOptionsByGap(options) <==> EntriesOf(options, g) != []
    ensures g in GroupOptionsByGap(options) ==> GroupOptionsByGap(options)[g] == EntriesOf(options, g)
  {
    GroupFromSpec(map[], options, g);
  }

  predicate Distinct(s: seq<nat>) {
    forall i, j :: 0 <= i < j < |s| ==> s[i] != s[j]
  }

  predicate Ascending(s: seq<nat>) {
    forall i, j :: 0 <= i < j < |s| ==> s[i] <= s[j]
  }

  predicate StrictlyAscending(s: seq<nat>) {
    forall i, j :: 0 <= i < j < |s| ==> s[i] < s[j]
  }

  /** The gap numbers of the options, in order of first appearance: the key order of a JavaScript `Map`. */
  function KeysFrom(seen: seq<nat>, options: seq<FlatOption>): (r: seq<nat>)
    requires Distinct(seen)
    ensures Distinct(r)
    ensures forall n: nat :: n in r <==> n in seen || EntriesOf(options, n) != []
    decreases |options|
  {
    if |options| == 0 then seen
    else
      var next := match OptionGap(options[0])
                  case Some((n, _)) => if n in seen then seen else seen + [n]
                  case None => seen;
      var r := KeysFrom(next, options[1..]);
      assert forall n: nat :: EntriesOf(options, n) == EntryIf(options[0], n) + EntriesOf(options[1..], n);
      r
  }

  /** The tail of a repeat-free list is repeat-free and does not hold its head. */
  lemma DistinctTail(s: seq<nat>)
    requires |s| > 0
    ensures Distinct(s) ==> Distinct(s[1..]) && s[0] !in s[1..]
  {
    if Distinct(s) {
      forall i, j | 0 <= i < j < |s[1..]| ensures s[1..][i] != s[1..][j] {
        assert s[1..][i] == s[i + 1] && s[1..][j] == s[j + 1];
      }
      forall k | 0 <= k < |s[1..]| ensures s[1..][k] != s[0] {
        assert s[1..][k] == s[k + 1];
      }
    }
  }

  /** Insert `x` before the first element not smaller than it. */
  function Insert(x: nat, s: seq<nat>): (r: seq<nat>)
    ensures multiset(r) == multiset(s) + multiset{x}
  {
    if |s| == 0 then [x]
    else if x <= s[0] then [x] + s
    else
      assert s == [s[0]] + s[1..];
      [s[0]] + Insert(x, s[1..])
  }

  /** Every element of `Insert(x, s)` is `x` or an element of `s`. */
  lemma InsertMember(x: nat, s: seq<nat>, k: nat)
    requires k < |Insert(x, s)|
    ensures Insert(x, s)[k] == x || Insert(x, s)[k] in s
  {
    assert Insert(x, s)[k] in multiset(Insert(x, s));
  }

  /** Putting a lower bound of an (strictly) ascending sequence in front keeps it (strictly) ascending. */
  lemma ConsAscending(h: nat, t: seq<nat>, strict: bool)
    requires Ascending(t) && forall k :: 0 <= k < |t| ==> h <= t[k]
    requires strict ==> StrictlyAscending(t) && forall k :: 0 <= k < |t| ==> h < t[k]
    ensures Ascending([h] + t)
    ensures strict ==> StrictlyAscending([h] + t)
  {
    var r := [h] + t;
    forall i, j | 0 <= i < j < |r| ensures r[i] <= r[j] && (strict ==> r[i] < r[j]) {
      assert r[j] == t[j - 1];
      if i > 0 {
        assert r[i] == t[i - 1];
      }
    }
  }

  /** A (strict) lower bound of `x` and of every element of `s` bounds every element of `Insert(x, s)`. */
  lemma InsertLowerBound(x: nat, s: seq<nat>, lo: nat, strict: bool)
    requires lo <= x && forall k :: 0 <= k < |s| ==> lo <= s[k]
    requires strict ==> lo < x && forall k :: 0 <= k < |s| ==> lo < s[k]
    ensures forall k :: 0 <= k < |Insert(x, s)| ==> lo <= Insert(x, s)[k] && (strict ==> lo < Insert(x, s)[k])
  {
    var t := Insert(x, s);
    forall k | 0 <= k < |t| ensures lo <= t[k] && (strict ==> lo < t[k]) {
      InsertMember(x, s, k);
      if t[k] != x {
        var m :| 0 <= m < |s| && s[m] == t[k];
      }
    }
  }

  /** Inserting into an ascending sequence keeps it ascending, and strictly so for a new element. */
  lemma {:induction false} InsertAscending(x: nat, s: seq<nat>)
    requires Ascending(s)
    ensures Ascending(Insert(x, s))
    ensures StrictlyAscending(s) && x !in s ==> StrictlyAscending(Insert(x, s))
  {
    var strict := StrictlyAscending(s) && x !in s;
    if |s| == 0 {
    } else if x <= s[0] {
      forall k | 0 <= k < |s| ensures x <= s[k] && (strict ==> x < s[k]) {
        assert s[0] <= s[k];
        if strict { assert s[k] in s; }
      }
      ConsAscending(x, s, strict);
    } else {
      var tail := s[1..];
      assert Ascending(tail);
      assert strict ==> StrictlyAscending(tail) && x !in tail;
      InsertAscending(x, tail);
      assert forall k :: 0 <= k < |tail| ==> s[0] <= tail[k] && (strict ==> s[0] < tail[k]) by {
        assert forall k :: 0 <= k < |tail| ==> tail[k] == s[k + 1];
      }
      InsertLowerBound(x, tail, s[0], strict);
      ConsAscending(s[0], Insert(x, tail), strict);
    }
  }

  /** `Array.prototype.sort((a, b) => a - b)` on gap numbers, as an insertion sort. */
  function SortNumbers(s: seq<nat>): (r: seq<nat>)
    ensures Ascending(r)
    ensures multiset(r) == multiset(s)
    ensures Distinct(s) ==> StrictlyAscending(r)
  {
    if |s| == 0 then []
    else
      assert s == [s[0]] + s[1..];
      var t := SortNumbers(s[1..]);
      DistinctTail(s);
      InsertAscending(s[0], t);
      assert s[0] in multiset(t) <==> s[0] in s[1..];
      Insert(s[0], t)
  }

  /** The gap numbers `decodeGapOptions` produces gaps for, in the order it produces them. */
  function DecodedGapNumbers(options: seq<FlatOption>): (r: seq<nat>)
    ensures StrictlyAscending(r)
    ensures forall n: nat :: n in r <==> EntriesOf(options, n) != []
  {
    var keys := KeysFrom([], options);
    var r := SortNumbers(keys);
    assert forall n :: n in r <==> n in multiset(r);
    assert forall n :: n in keys <==> n in multiset(keys);
    r
  }

  /** The candidates of a decoded gap: the text after the marker, the correctness flag and the image. */
  function Decoded(entries: seq<GapEntry>): (r: seq<GapOption>)
    ensures |r| == |entries|
    ensures forall k :: 0 <= k < |r| ==>
              r[k] == GapOption(entries[k].labelText, entries[k].option.isCorrect, entries[k].option.imageUrl)
  {
    if |entries| == 0 then []
    else [GapOption(entries[0].labelText, entries[0].option.isCorrect, entries[0].option.imageUrl)] + Decoded(entries[1..])
  }

  /** `gapExplanations[gapIndex] || ''`: the stored explanation of gap `g`, or ''. */
  function ExplanationFor(explanations: Explanations, g: nat): (r: string)
    ensures explanations.GapExplanations? && g in explanations.byGap ==> r == explanations.byGap[g]
    ensures explanations.NoExplanations? || g !in explanations.byGap ==> r == []
  {
    match explanations
    case NoExplanations => []
    case GapExplanations(byGap) => if g in byGap then byGap[g] else []
  }

  /**
   * `decodeGapOptions`: one gap per gap number that occurs among the options, in
   * ascending gap-number order, each holding that gap's candidates in stored order.
   */
  function DecodeGapOptions(options: seq<FlatOption>, explanations: Explanations): (r: seq<Gap>)
    ensures |r| == |DecodedGapNumbers(options)|
    ensures forall i :: 0 <= i < |r| ==>
              r[i] == Gap(Decoded(EntriesOf(options, DecodedGapNumbers(options)[i])),
                          ExplanationFor(explanations, DecodedGapNumbers(options)[i]))
  {
    var groups := GroupOptionsByGap(options);
    var numbers := DecodedGapNumbers(options);
    assert forall i :: 0 <= i < |numbers| ==> numbers[i] in groups && groups[numbers[i]] == EntriesOf(options, numbers[i]) by {
      forall i | 0 <= i < |numbers|
        ensures numbers[i] in groups && groups[numbers[i]] == EntriesOf(options, numbers[i])
      {
        GroupOptionsByGapSpec(options, numbers[i]);
      }
    }
    seq(|numbers|, i requires 0 <= i < |numbers| => Gap(Decoded(groups[numbers[i]]), ExplanationFor(explanations, numbers[i])))
  }

  // ---------------------------------------------------------------------------
  // Round trip

  /** No candidate text holds a line terminator (which the marker pattern's `.` cannot match). */
  predicate NoLineTerminators(opts: seq<GapOption>) {
    forall k :: 0 <= k < |opts| ==> NoLineTerminator(opts[k].text)
  }

  predicate CleanTexts(gaps: seq<Gap>) {
    forall g :: 0 <= g < |gaps| ==> NoLineTerminators(gaps[g].options)
  }

  /** The entries `groupOptionsByGap` finds for a gap stored from flat position `base`. */
  function GapEntries(g: nat, opts: seq<GapOption>, base: nat): (r: seq<GapEntry>)
    ensures |r| == |opts|
    ensures forall k :: 0 <= k < |r| ==> r[k] == GapEntry(FlatOf(g, opts[k], base + k), opts[k].text, base + k)
  {
    if |opts| == 0 then []
    else [GapEntry(FlatOf(g, opts[0], base), opts[0].text, base)] + GapEntries(g, opts[1..], base + 1)
  }

  /** An encoded candidate of gap `g` is an entry of gap `g` and of no other gap. */
  lemma EntryOfFlat(g: nat, o: GapOption, i: nat, h: nat)
    requires NoLineTerminator(o.text)
    ensures EntryIf(FlatOf(g, o, i), h) == if g == h then [GapEntry(FlatOf(g, o, i), o.text, i)] else []
  {
    ParseMarkerText(g, o.text);
  }

  /** The candidates of one encoded gap are exactly the entries of that gap and of no other. */
  lemma {:induction false} EntriesOfEncodeGap(g: nat, opts: seq<GapOption>, base: nat, h: nat)
    requires NoLineTerminators(opts)
    ensures EntriesOf(EncodeGap(g, opts, base), h) == if g == h then GapEntries(h, opts, base) else []
  {
    if |opts| > 0 {
      var flat := EncodeGap(g, opts, base);
      var rest := EncodeGap(g, opts[1..], base + 1);
      assert flat == [FlatOf(g, opts[0], base)] + rest;
      assert EntriesOf(flat, h) == EntryIf(FlatOf(g, opts[0], base), h) + EntriesOf(rest, h);
      assert NoLineTerminators(opts[1..]) by {
        forall k | 0 <= k < |opts[1..]| ensures NoLineTerminator(opts[1..][k].text) {
          assert opts[1..][k] == opts[k + 1];
        }
      }
      EntriesOfEncodeGap(g, opts[1..], base + 1, h);
      EntryOfFlat(g, opts[0], base, h);
    }
  }

  /** The entries found in the flat list of gaps `g0`, `g0 + 1`, ... come from gap `g0`'s part, then from the rest. */
  lemma EntriesOfEncodeFromSplit(gaps: seq<Gap>, g0: nat, h: nat)
    requires g0 < |gaps|
    ensures EntriesOf(EncodeFrom(gaps, g0), h)
              == EntriesOf(EncodeGap(g0, gaps[g0].options, Offset(gaps, g0)), h) + EntriesOf(EncodeFrom(gaps, g0 + 1), h)
  {
    EntriesOfConcat(EncodeGap(g0, gaps[g0].options, Offset(gaps, g0)), EncodeFrom(gaps, g0 + 1), h);
  }

  /** In the flat list of gaps `g0`, `g0 + 1`, ..., gap `h` has exactly its own candidates as entries. */
  lemma {:induction false} EntriesOfEncodeFrom(gaps: seq<Gap>, g0: nat, h: nat)
    requires g0 <= |gaps| && CleanTexts(gaps)
    ensures EntriesOf(EncodeFrom(gaps, g0), h) ==
              if g0 <= h < |gaps| then GapEntries(h, gaps[h].options, Offset(gaps, h)) else []
    decreases |gaps| - g0
  {
    if g0 < |gaps| {
      var first := EntriesOf(EncodeGap(g0, gaps[g0].options, Offset(gaps, g0)), h);
      var rest := EntriesOf(EncodeFrom(gaps, g0 + 1), h);
      assert EntriesOf(EncodeFrom(gaps, g0), h) == first + rest by {
        EntriesOfEncodeFromSplit(gaps, g0, h);
      }
      assert first == if g0 == h then GapEntries(h, gaps[h].options, Offset(gaps, h)) else [] by {
        assert NoLineTerminators(gaps[g0].options);
        EntriesOfEncodeGap(g0, gaps[g0].options, Offset(gaps, g0), h);
      }
      assert rest == if g0 + 1 <= h < |gaps| then GapEntries(h, gaps[h].options, Offset(gaps, h)) else [] by {
        EntriesOfEncodeFrom(gaps, g0 + 1, h);
      }
      if h == g0 {
        assert rest == [];
        assert first + rest == first;
      } else {
        assert first == [];
        assert first + rest == rest;
      }
    }
  }

  /** Decoding the entries of an encoded gap gives its candidates back. */
  lemma DecodedGapEntries(g: nat, opts: seq<GapOption>, base: nat)
    ensures Decoded(GapEntries(g, opts, base)) == opts
  {
    var d := Decoded(GapEntries(g, opts, base));
    forall k | 0 <= k < |opts| ensures d[k] == opts[k] {
    }
  }

  /** The numbers of the gaps from `g0` on that have at least one candidate, in ascending order. */
  function NonEmptyGapsFrom(gaps: seq<Gap>, g0: nat): (r: seq<nat>)
    requires g0 <= |gaps|
    ensures StrictlyAscending(r)
    ensures forall n: nat :: n in r <==> g0 <= n < |gaps| && |gaps[n].options| > 0
    ensures forall k :: 0 <= k < |r| ==> g0 <= r[k] < |gaps| && |gaps[r[k]].options| > 0
    decreases |gaps| - g0
  {
    if g0 == |gaps| then []
    else
      var rest := NonEmptyGapsFrom(gaps, g0 + 1);
      if |gaps[g0].options| > 0 then
        ConsAscending(g0, rest, true);
        [g0] + rest
      else rest
  }

  /** Two strictly ascending sequences with the same elements are equal. */
  lemma {:induction false} StrictlyAscendingUnique(a: seq<nat>, b: seq<nat>)
    requires StrictlyAscending(a) && StrictlyAscending(b)
    requires forall n :: n in a <==> n in b
    ensures a == b
  {
    assert |a| == 0 <==> |b| == 0 by {
      if |a| > 0 { assert a[0] in b; }
      if |b| > 0 { assert b[0] in a; }
    }
    if |a| > 0 {
      assert a[0] in b;
      assert b[0] in a;
      assert a[0] == b[0];
      forall n ensures n in a[1..] <==> n in b[1..] {
        if n in a[1..] {
          assert a[0] < n by { var i :| 0 <= i < |a[1..]| && a[1..][i] == n; assert a[i + 1] == n; }
          assert n in b;
        }
        if n in b[1..] {
          assert b[0] < n by { var i :| 0 <= i < |b[1..]| && b[1..][i] == n; assert b[i + 1] == n; }
          assert n in a;
        }
      }
      StrictlyAscendingUnique(a[1..], b[1..]);
      assert a == [a[0]] + a[1..] && b == [b[0]] + b[1..];
    }
  }

  /** The explanation decoded for gap `h` is its trimmed explanation ('' when blank). */
  lemma DecodedExplanation(gaps: seq<Gap>, h: nat)
    requires h < |gaps|
    ensures ExplanationFor(EncodeExplanations(gaps), h) == Trim(gaps[h].explanation)
  {
    EncodedExplanation(gaps, h);
  }

  /** A gap number is decoded from an encoding exactly when that gap has a candidate. */
  lemma GapNumberOfEncode(gaps: seq<Gap>, n: nat)
    requires CleanTexts(gaps)
    ensures n in DecodedGapNumbers(EncodeFrom(gaps, 0)) <==> n in NonEmptyGapsFrom(gaps, 0)
  {
    EntriesOfEncodeFrom(gaps, 0, n);
  }

  /** The gap numbers decoded from an encoding are those of the gaps with at least one candidate. */
  lemma DecodedNumbersOfEncode(gaps: seq<Gap>)
    requires CleanTexts(gaps)
    ensures DecodedGapNumbers(EncodeFrom(gaps, 0)) == NonEmptyGapsFrom(gaps, 0)
  {
    forall n: nat ensures n in DecodedGapNumbers(EncodeFrom(gaps, 0)) <==> n in NonEmptyGapsFrom(gaps, 0) {
      GapNumberOfEncode(gaps, n);
    }
    StrictlyAscendingUnique(DecodedGapNumbers(EncodeFrom(gaps, 0)), NonEmptyGapsFrom(gaps, 0));
  }

  /** Decoding the entries of gap `h` of an encoding gives that gap's candidates. */
  lemma DecodedGapOfEncode(gaps: seq<Gap>, h: nat)
    requires CleanTexts(gaps) && h < |gaps|
    ensures Decoded(EntriesOf(EncodeFrom(gaps, 0), h)) == gaps[h].options
  {
    EntriesOfEncodeFrom(gaps, 0, h);
    DecodedGapEntries(h, gaps[h].options, Offset(gaps, h));
  }

  /**
   * Round trip: decoding an encoding gives back the gaps that have at least one
   * candidate, in order, with their candidates unchanged and their explanations
   * trimmed, provided no candidate text holds a line terminator.
   */
  lemma DecodeEncode(gaps: seq<Gap>)
    requires CleanTexts(gaps)
    ensures var kept := NonEmptyGapsFrom(gaps, 0);
            var e := EncodeGapOptions(gaps);
            DecodeGapOptions(e.options, e.explanations)
              == seq(|kept|, i requires 0 <= i < |kept| => Gap(gaps[kept[i]].options, Trim(gaps[kept[i]].explanation)))
  {
    var kept := NonEmptyGapsFrom(gaps, 0);
    var e := EncodeGapOptions(gaps);
    assert e.options == EncodeFrom(gaps, 0);
    DecodedNumbersOfEncode(gaps);
    var d := DecodeGapOptions(e.options, e.explanations);
    forall i | 0 <= i < |kept|
      ensures d[i] == Gap(gaps[kept[i]].options, Trim(gaps[kept[i]].explanation))
    {
      DecodedGapOfEncode(gaps, kept[i]);
      DecodedExplanation(gaps, kept[i]);
    }
  }

  /** The gaps with their explanations trimmed, as decoding gives them back. */
  function TrimmedExplanations(gaps: seq<Gap>): (r: seq<Gap>)
    ensures |r| == |gaps|
    ensures forall g :: 0 <= g < |gaps| ==> r[g].options == gaps[g].options && r[g].explanation == Trim(gaps[g].explanation)
  {
    seq(|gaps|, g requires 0 <= g < |gaps| => Gap(gaps[g].options, Trim(gaps[g].explanation)))
  }

  /** When every gap has a candidate, decoding an encoding gives every gap back, explanations trimmed. */
  lemma DecodeEncodeAllNonEmpty(gaps: seq<Gap>)
    requires CleanTexts(gaps)
    requires forall g :: 0 <= g < |gaps| ==> |gaps[g].options| > 0
    ensures var e := EncodeGapOptions(gaps);
            DecodeGapOptions(e.options, e.explanations)
              == TrimmedExplanations(gaps)
  {
    var kept := NonEmptyGapsFrom(gaps, 0);
    var all: seq<nat> := seq(|gaps|, g requires 0 <= g < |gaps| => g);
    forall n: nat ensures n in all <==> n in kept {
      if n < |gaps| { assert all[n] == n; }
    }
    StrictlyAscendingUnique(all, kept);
    DecodeEncode(gaps);
  }

  /** Decoding skips an option whose text is not a string or carries no complete marker. */
  lemma DecodeSkipsUnmarked(a: seq<FlatOption>, o: FlatOption, b: seq<FlatOption>, explanations: Explanations)
    requires OptionGap(o).None?
    ensures DecodeGapOptions(a + [o] + b, explanations) == DecodeGapOptions(a + b, explanations)
  {
    forall n: nat ensures EntriesOf(a + [o] + b, n) == EntriesOf(a + b, n) {
      EntriesOfSkip(a, o, b, n);
    }
    StrictlyAscendingUnique(DecodedGapNumbers(a + [o] + b), DecodedGapNumbers(a + b));
  }

  lemma EntriesOfSkip(a: seq<FlatOption>, o: FlatOption, b: seq<FlatOption>, n: nat)
    requires OptionGap(o).None?
    ensures EntriesOf(a + [o] + b, n) == EntriesOf(a + b, n)
  {
    var none: seq<GapEntry> := [];
    assert EntriesOf([o], n) == none by {
      assert EntriesOf([o], n) == EntryIf(o, n) + EntriesOf([o][1..], n);
      assert [o][1..] == [];
    }
    assert EntriesOf(a + [o], n) == EntriesOf(a, n) by {
      EntriesOfConcat(a, [o], n);
      assert EntriesOf(a, n) + none == EntriesOf(a, n);
    }
    EntriesOfConcat(a + [o], b, n);
    EntriesOfConcat(a, b, n);
  }

  /** Decoding no options gives no gaps. */
  lemma DecodeNothing(explanations: Explanations)
    ensures DecodeGapOptions([], explanations) == []
  {
    var empty: seq<nat> := [];
    StrictlyAscendingUnique(DecodedGapNumbers([]), empty);
  }

  /**
   * A candidate text holding a line terminator does not survive the round trip:
   * the marker pattern fails on it, so a gap whose only candidate it is vanishes.
   */
  lemma DecodeEncodeLosesLineTerminator(o: GapOption, explanation: string)
    requires !NoLineTerminator(o.text)
    ensures var e := EncodeGapOptions([Gap([o], explanation)]);
            DecodeGapOptions(e.options, e.explanations) == []
  {
    var gaps := [Gap([o], explanation)];
    var e := EncodeGapOptions(gaps);
    ParseMarkerText(0, o.text);
    assert e.options == [] + [FlatOf(0, o, 0)] + [] by {
      assert EncodeFrom(gaps, 1) == [];
      assert EncodeGap(0, [o], 0) == [FlatOf(0, o, 0)];
    }
    DecodeSkipsUnmarked([], FlatOf(0, o, 0), [], e.explanations);
    DecodeNothing(e.explanations);
  }
}
