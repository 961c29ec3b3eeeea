/**
 * The comments section: avatar initials and colour derived from a user name,
 * inserting an emoji at the caret, the guard on posting a comment, and how
 * fetched pages and a posted comment change the shown list.  Lengths,
 * `charCodeAt`, `slice` and the selection offsets count UTF-16 code units, as
 * JavaScript does; `upper` stands for `toUpperCase` on text that is not ASCII.
 */
module Comments {
  import opened Wrappers
  import opened JsText
  import opened Rows

  // getInitials

  /** `[a-zA-Z0-9]`. */
  predicate IsAsciiAlnum(c: char) {
    ('a' <= c <= 'z') || ('A' <= c <= 'Z') || ('0' <= c <= '9')
  }

  /** `s.replace(/[^a-zA-Z0-9]/g, '')`. */
  function KeepAsciiAlnum(s: string): (r: string)
    ensures r == Filter(s, IsAsciiAlnum)
    ensures forall k :: 0 <= k < |r| ==> IsAsciiAlnum(r[k])
    ensures (forall k :: 0 <= k < |s| ==> IsAsciiAlnum(s[k])) ==> r == s
  {
    if |s| == 0 then []
    else
      var rest := KeepAsciiAlnum(s[1..]);
      FilterSatisfies(s, IsAsciiAlnum);
      FilterAll(s, IsAsciiAlnum);
      (if IsAsciiAlnum(s[0]) then [s[0]] else []) + rest
  }

  /** `toUpperCase` of an ASCII letter or digit. */
  function UpperAscii(c: char): (r: char)
    requires IsAsciiAlnum(c)
    ensures IsAsciiAlnum(r) && !('a' <= r <= 'z')
    ensures 'a' <= c <= 'z' ==> r as int == c as int - 32
    ensures !('a' <= c <= 'z') ==> r == c
  {
    if 'a' <= c <= 'z' then (c as int - 32) as char else c
  }

  /**
   * `getInitials`: '?' without a name or for a blank one; otherwise the first
   * two ASCII letters or digits of the trimmed name, upper-cased, or, when it
   * has none, the characters in its first two code units upper-cased.
   */
  function Initials(username: Option<string>, upper: string -> string): (r: string)
    ensures username.None? || IsBlank(username.value) ==> r == "?"
    ensures username.Some? && !IsBlank(username.value) ==>
              var t := Trim(username.value);
              var kept := KeepAsciiAlnum(t);
              && (kept != [] ==>
                    && |r| == (if |kept| < 2 then |kept| else 2)
                    && forall k :: 0 <= k < |r| ==> r[k] == UpperAscii(kept[k]))
              && (kept == [] ==> r == upper(t[..FitPrefix(t, 2)]))
  {
    if username.None? || username.value == [] then "?"
    else
      var t := Trim(username.value);
      if t == [] then "?"
      else
        var kept := KeepAsciiAlnum(t);
        if kept != [] then UpperFirstTwo(kept) else upper(t[..FitPrefix(t, 2)])
  }

  /** `letters.slice(0, 2).toUpperCase()` on ASCII letters and digits, one code unit each: the first two, upper-cased. */
  function UpperFirstTwo(kept: string): (r: string)
    requires forall k :: 0 <= k < |kept| ==> IsAsciiAlnum(kept[k])
    ensures |r| == (if |kept| < 2 then |kept| else 2)
    ensures forall k :: 0 <= k < |r| ==> r[k] == UpperAscii(kept[k])
  {
    forall k | 0 <= k < |kept| ensures InBmp(kept[k]) {
      assert IsAsciiAlnum(kept[k]);
    }
    FitPrefixInBmp(kept, 2);
    var two := kept[..FitPrefix(kept, 2)];
    seq(|two|, k requires 0 <= k < |two| => UpperAscii(two[k]))
  }

  /** Initials of a name with a letter or digit are one or two upper-case ASCII letters or digits. */
  lemma InitialsAreAscii(name: string, upper: string -> string)
    requires exists k :: 0 <= k < |name| && IsAsciiAlnum(name[k])
    ensures var r := Initials(Some(name), upper);
            1 <= |r| <= 2 && forall k :: 0 <= k < |r| ==> IsAsciiAlnum(r[k]) && !('a' <= r[k] <= 'z')
  {
    var k :| 0 <= k < |name| && IsAsciiAlnum(name[k]);
    AlnumSurvivesTrim(name, k);
    var kept := KeepAsciiAlnum(Trim(name));
    UpperedAreAscii(Initials(Some(name), upper), kept);
  }

  /** Upper-casing one or two ASCII letters or digits gives upper-case ASCII letters or digits. */
  lemma UpperedAreAscii(r: string, kept: string)
    requires kept != [] && forall k :: 0 <= k < |kept| ==> IsAsciiAlnum(kept[k])
    requires |r| == (if |kept| < 2 then |kept| else 2) && forall k :: 0 <= k < |r| ==> r[k] == UpperAscii(kept[k])
    ensures 1 <= |r| <= 2 && forall k :: 0 <= k < |r| ==> IsAsciiAlnum(r[k]) && !('a' <= r[k] <= 'z')
  {
  }

  /** A letter or digit is not white space, so trimming keeps it and the name is not blank. */
  lemma AlnumSurvivesTrim(s: string, k: nat)
    requires k < |s| && IsAsciiAlnum(s[k])
    ensures !IsBlank(s)
    ensures KeepAsciiAlnum(Trim(s)) != []
  {
    TrimKeepsNonSpace(s, k);
    assert s[k] in Filter(Trim(s), IsAsciiAlnum);
  }

  lemma TrimKeepsNonSpace(s: string, k: nat)
    requires k < |s| && !IsSpace(s[k])
    ensures s[k] in Trim(s)
  {
    var n := LeadingSpace(s);
    var r := Trim(s);
    assert n <= k by {
      assert forall j :: 0 <= j < n ==> s[j] == s[..n][j];
    }
    assert k < n + |r| by {
      assert forall j :: n + |r| <= j < |s| ==> s[j] == s[n + |r|..][j - n - |r|];
    }
    assert r[k - n] == s[k];
  }

  // stringToColor

  const TwoTo32: int := 0x1_0000_0000
  const TwoTo31: int := 0x8000_0000

  /** The signed 32-bit integer `ToInt32` makes of `x`. */
  function Wrap32(x: int): (r: int)
    ensures -TwoTo31 <= r < TwoTo31
  {
    var m := x % TwoTo32;
    if m >= TwoTo31 then m - TwoTo32 else m
  }

  /** The wrap only takes away a multiple of 2^32. */
  lemma Wrap32Congruence(x: int)
    ensures (Wrap32(x) - x) % TwoTo32 == 0
  {
    var q := x / TwoTo32;
    assert x == q * TwoTo32 + x % TwoTo32;
  }

  /** One step of the hash on the code unit `code`: `hash = code + ((hash << 5) - hash); hash &= hash`. */
  function HashStep(hash: int, code: int): (r: int)
    ensures -TwoTo31 <= r < TwoTo31
  {
    Wrap32(code + (Wrap32(hash * 32) - hash))
  }

  /** The hash after each of the code units `us`, first to last. */
  function HashUnits(us: seq<int>): (r: int)
    ensures -TwoTo31 <= r < TwoTo31
  {
    if |us| == 0 then 0 else HashStep(HashUnits(us[..|us| - 1]), us[|us| - 1])
  }

  /** The hash of `s`: its UTF-16 code units folded in as `charCodeAt` reads them. */
  function Hash(s: string): (r: int)
    ensures -TwoTo31 <= r < TwoTo31
  {
    HashUnits(Utf16(s))
  }

  /** Appending a character below U+10000 continues the hash with `31 * hash + code` modulo 2^32. */
  lemma HashAppendBmp(s: string, c: char)
    requires InBmp(c)
    ensures Hash(s + [c]) == Wrap32(31 * Hash(s) + c as int)
  {
    Utf16Snoc(s, c);
    HashUnitsSnoc(Utf16(s + [c]), Utf16(s), c as int);
  }

  /** Appending an astral character continues the hash once per surrogate, high then low. */
  lemma HashAppendAstral(s: string, c: char)
    requires !InBmp(c)
    ensures var us := CodeUnits(c);
            Hash(s + [c]) == Wrap32(31 * Wrap32(31 * Hash(s) + us[0]) + us[1])
  {
    var us := CodeUnits(c);
    assert us == [us[0], us[1]];
    HashAppendUnits(s, c, us[0], us[1]);
  }

  /** A character of the two code units `x` and `y` continues the hash with `x`, then `y`. */
  lemma HashAppendUnits(s: string, c: char, x: int, y: int)
    requires CodeUnits(c) == [x, y]
    ensures Hash(s + [c]) == Wrap32(31 * Wrap32(31 * Hash(s) + x) + y)
  {
    Utf16Snoc(s, c);
    HashUnitsSnoc2(Utf16(s + [c]), Utf16(s), x, y);
  }

  /** Two more code units continue the hash twice. */
  lemma HashUnitsSnoc2(w: seq<int>, us: seq<int>, x: int, y: int)
    requires w == us + [x, y]
    ensures HashUnits(w) == Wrap32(31 * Wrap32(31 * HashUnits(us) + x) + y)
  {
    var v := us + [x];
    assert w == v + [y];
    HashUnitsSnoc(v, us, x);
    HashUnitsSnoc(w, v, y);
  }

  /** One more code unit continues the hash with `31 * hash + code` modulo 2^32. */
  lemma HashUnitsSnoc(w: seq<int>, us: seq<int>, x: int)
    requires w == us + [x]
    ensures HashUnits(w) == Wrap32(31 * HashUnits(us) + x)
  {
    assert w[..|us|] == us;
    HashStepIsTimes31(HashUnits(us), x);
  }

  /** The step is the familiar `31 * hash + code`, taken modulo 2^32. */
  lemma HashStepIsTimes31(hash: int, code: int)
    ensures HashStep(hash, code) == Wrap32(31 * hash + code)
  {
    var a := code + (Wrap32(hash * 32) - hash);
    var b := 31 * hash + code;
    assert (a - b) % TwoTo32 == 0 by {
      Wrap32Congruence(hash * 32);
      assert a - b == Wrap32(hash * 32) - hash * 32;
    }
    Wrap32Congruent(a, b);
  }

  lemma Wrap32Congruent(a: int, b: int)
    requires (a - b) % TwoTo32 == 0
    ensures Wrap32(a) == Wrap32(b)
  {
    var q := (a - b) / TwoTo32;
    assert a == b + q * TwoTo32;
    ModShift(b, q);
  }

  lemma ModShift(b: int, q: int)
    ensures (b + q * TwoTo32) % TwoTo32 == b % TwoTo32
  {
  }

  /** `(hash >> (i * 8)) & 0xff`: byte `i` of the two's complement, counted from the least significant. */
  function HashByte(hash: int, i: nat): (r: nat)
    requires i < 3
    ensures r < 256
  {
    var u := hash % TwoTo32;
    (if i == 0 then u else if i == 1 then u / 0x100 else u / 0x1_0000) % 256
  }

  /** `d.toString(16)` of a single digit. */
  function HexDigit(d: nat): (c: char)
    requires d < 16
    ensures IsLowerHex(c) && HexValue(c) == d
  {
    if d < 10 then ('0' as int + d) as char else ('a' as int + d - 10) as char
  }

  /** The value of a lowercase hexadecimal digit. */
  function HexValue(c: char): (r: nat)
    ensures r < 16
  {
    if '0' <= c <= '9' then (c as int - '0' as int) as nat
    else if 'a' <= c <= 'f' then (c as int - 'a' as int + 10) as nat
    else 0
  }

  predicate IsLowerHex(c: char) {
    ('0' <= c <= '9') || ('a' <= c <= 'f')
  }

  /** `('00' + v.toString(16)).slice(-2)`. */
  function Hex2(v: nat): (r: string)
    requires v < 256
    ensures |r| == 2 && IsLowerHex(r[0]) && IsLowerHex(r[1])
    ensures HexValue(r[0]) * 16 + HexValue(r[1]) == v
  {
    [HexDigit(v / 16), HexDigit(v % 16)]
  }

  /**
   * `stringToColor`: '#888888' for the empty string; otherwise '#' and six
   * lowercase hexadecimal digits, two per byte of the hash, least significant
   * byte first.
   */
  method StringToColor(s: string) returns (color: string)
    ensures s == [] ==> color == "#888888"
    ensures s != [] ==>
              && |color| == 7 && color[0] == '#'
              && (forall k :: 1 <= k < 7 ==> IsLowerHex(color[k]))
              && forall i :: 0 <= i < 3 ==> HexValue(color[1 + 2 * i]) * 16 + HexValue(color[2 + 2 * i]) == HashByte(Hash(s), i)
  {
    if s == [] {
      return "#888888";
    }
    var hash := HashLoop(Utf16(s));
    color := HexBytes(hash);
  }

  /** The `charCodeAt` loop of `stringToColor`, over the code units. */
  method HashLoop(units: seq<int>) returns (hash: int)
    ensures hash == HashUnits(units)
  {
    hash := 0;
    var i := 0;
    while i < |units|
      invariant 0 <= i <= |units|
      invariant hash == HashUnits(units[..i])
    {
      assert units[..i + 1][..i] == units[..i];
      hash := HashStep(hash, units[i]);
      i := i + 1;
    }
    assert units[..|units|] == units;
  }

  /** The byte loop of `stringToColor`: '#' and two lower-case hex digits per byte of the hash, least significant first. */
  method HexBytes(hash: int) returns (color: string)
    ensures |color| == 7 && color[0] == '#'
    ensures forall k :: 1 <= k < 7 ==> IsLowerHex(color[k])
    ensures forall i :: 0 <= i < 3 ==> HexValue(color[1 + 2 * i]) * 16 + HexValue(color[2 + 2 * i]) == HashByte(hash, i)
  {
    color := "#";
    var j := 0;
    while j < 3
      invariant 0 <= j <= 3
      invariant |color| == 1 + 2 * j && color[0] == '#'
      invariant forall k :: 1 <= k < |color| ==> IsLowerHex(color[k])
      invariant forall m :: 0 <= m < j ==> HexValue(color[1 + 2 * m]) * 16 + HexValue(color[2 + 2 * m]) == HashByte(hash, m)
    {
      color := color + Hex2(HashByte(hash, j));
      j := j + 1;
    }
  }

  // handleInsertEmoji

  /** `EMOJIS`: the emoji buttons' characters. */
  const Emojis: seq<string> := ["\U{1F642}", "\U{1F60D}", "\U{1F389}", "\U{1F914}", "\U{1F621}"]

  /** Every emoji offered is one astral character, two code units, so it moves the caret by two. */
  lemma EmojisAreTwoUnits()
    ensures forall k :: 0 <= k < |Emojis| ==> |Emojis[k]| == 1 && Length(Emojis[k]) == 2
  {
    forall k | 0 <= k < |Emojis| ensures |Emojis[k]| == 1 && Length(Emojis[k]) == 2 {
      var e := Emojis[k];
      assert e == [e[0]] && !InBmp(e[0]);
      OneAstralCharacter(e[0]);
    }
  }

  datatype Inserted = Inserted(value: string, caret: Option<nat>)

  /**
   * `handleInsertEmoji`: without the text area the emoji is appended;
   * otherwise it replaces the selection, whose ends are UTF-16 offsets (an
   * unknown end is the end of the text), and the caret is put `emoji.length`
   * code units after the selection's start.
   */
  function InsertEmoji(value: string, emoji: string, hasTextArea: bool, selStart: Option<nat>, selEnd: Option<nat>): (r: Inserted)
    ensures !hasTextArea ==> r == Inserted(value + emoji, None)
    ensures hasTextArea ==> r.caret == Some(selStart.GetOr(Length(value)) + Length(emoji))
    ensures hasTextArea ==> |r.value| >= |emoji|
  {
    if !hasTextArea then Inserted(value + emoji, None)
    else
      var start := selStart.GetOr(Length(value));
      var end := selEnd.GetOr(Length(value));
      Inserted(value[..FitPrefix(value, start)] + emoji + value[FitPrefix(value, end)..], Some(start + Length(emoji)))
  }

  /**
   * Inserting over a selected part of the text: the emoji replaces exactly
   * that part, and the caret, counted in code units as the browser counts it,
   * lands right after the emoji.
   */
  lemma CaretAfterEmoji(before: string, selected: string, after: string, emoji: string)
    ensures var r := InsertEmoji(before + selected + after, emoji, true, Some(Length(before)), Some(Length(before + selected)));
            r == Inserted(before + emoji + after, Some(Length(before + emoji)))
  {
    var value := before + selected + after;
    CutsAroundSelection(before, selected, after);
    InsertEmojiBetween(value, emoji, Length(before), Length(before + selected), before, after);
    LengthAppend(before, emoji);
  }

  /** With a text area, whatever lies before the selection's start and after its end is kept around the emoji. */
  lemma InsertEmojiBetween(value: string, emoji: string, start: nat, end: nat, x: string, y: string)
    requires value[..FitPrefix(value, start)] == x && value[FitPrefix(value, end)..] == y
    ensures InsertEmoji(value, emoji, true, Some(start), Some(end)) == Inserted(x + emoji + y, Some(start + Length(emoji)))
  {
  }

  /** Cutting a text at the code-unit lengths of the parts before and up to the end of a selection recovers the parts around it. */
  lemma CutsAroundSelection(before: string, selected: string, after: string)
    ensures var value := before + selected + after;
            && value[..FitPrefix(value, Length(before))] == before
            && value[FitPrefix(value, Length(before + selected))..] == after
  {
    var value := before + selected + after;
    assert value == before + (selected + after);
    SliceAtLength(value, before, selected + after);
    SliceAtLength(value, before + selected, after);
  }

  /** Cutting a text at the code-unit length of one of its prefixes splits off that prefix. */
  lemma SliceAtLength(value: string, x: string, y: string)
    requires value == x + y
    ensures value[..FitPrefix(value, Length(x))] == x && value[FitPrefix(value, Length(x))..] == y
  {
    assert value[..|x|] == x;
    FitPrefixOfLength(value, |x|);
  }

  /** Without a selection the emoji goes at the end, as without the text area, and the caret follows it. */
  lemma EmojiAtEndByDefault(value: string, emoji: string)
    ensures InsertEmoji(value, emoji, true, None, None) == Inserted(value + emoji, Some(Length(value + emoji)))
  {
    CaretAfterEmoji(value, [], [], emoji);
    assert value + [] + [] == value && value + [] == value && value + emoji + [] == value + emoji;
  }

  // posting and paging

  /** `handleSubmit`'s guard: the trimmed text to post, or nothing when signed out, without a quiz, or when the text is blank. */
  function TextToPost(isAuthenticated: bool, quizId: string, input: string): (r: Option<string>)
    ensures r.Some? <==> isAuthenticated && quizId != [] && !IsBlank(input)
    ensures r.Some? ==> r.value == Trim(input) && r.value != []
  {
    if !isAuthenticated || quizId == [] then None
    else
      var text := Trim(input);
      if text == [] then None else Some(text)
  }

  /** A posted text has no white space at either end. */
  lemma PostedTextIsTrimmed(isAuthenticated: bool, quizId: string, input: string)
    ensures var r := TextToPost(isAuthenticated, quizId, input);
            r.Some? ==> !IsSpace(r.value[0]) && !IsSpace(r.value[|r.value| - 1]) && Trim(r.value) == r.value
  {
    TrimIdempotent(input);
  }

  datatype Shown<C> = Shown(comments: seq<C>, input: string)

  /** A comment was posted: it is shown first and the input is cleared. */
  function Posted<C>(s: Shown<C>, newComment: C): (r: Shown<C>)
    ensures |r.comments| == |s.comments| + 1
    ensures r.comments[0] == newComment && r.comments[1..] == s.comments && r.input == []
  {
    Shown([newComment] + s.comments, [])
  }

  /** A page of comments arrived: the first page replaces the list, a later one is appended. */
  function PageLoaded<C>(shown: seq<C>, page: nat, results: seq<C>): (r: seq<C>)
    ensures page == 1 ==> r == results
    ensures page != 1 ==> |r| == |shown| + |results| && r[..|shown|] == shown && r[|shown|..] == results
  {
    if page == 1 then results else shown + results
  }

  /** Loading the pages from the first onwards shows every page's comments in page order, whatever was shown before. */
  lemma {:induction false} PagesConcatenate<C>(before: seq<C>, pages: seq<seq<C>>)
    requires |pages| >= 1
    ensures LoadPages(before, pages, 1) == Concat(pages)
  {
    LoadPagesFrom(pages[0], pages[1..], 2);
    assert Concat(pages) == pages[0] + Concat(pages[1..]);
  }

  /** The list after loading `pages` as pages `first`, `first + 1`, … */
  function LoadPages<C>(shown: seq<C>, pages: seq<seq<C>>, first: nat): seq<C>
    decreases |pages|
  {
    if |pages| == 0 then shown else LoadPages(PageLoaded(shown, first, pages[0]), pages[1..], first + 1)
  }

  function Concat<C>(pages: seq<seq<C>>): seq<C> {
    if |pages| == 0 then [] else pages[0] + Concat(pages[1..])
  }

  lemma {:induction false} LoadPagesFrom<C>(shown: seq<C>, pages: seq<seq<C>>, first: nat)
    requires first >= 2
    ensures LoadPages(shown, pages, first) == shown + Concat(pages)
    decreases |pages|
  {
    if |pages| > 0 {
      LoadPagesFrom(shown + pages[0], pages[1..], first + 1);
      assert shown + pages[0] + Concat(pages[1..]) == shown + (pages[0] + Concat(pages[1..]));
    }
  }
}
