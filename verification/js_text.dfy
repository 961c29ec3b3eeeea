/**
 * The JavaScript (and Python) string primitives the application relies on.
 * A string is modelled as `seq<char>`, one `char` per Unicode code point, as
 * Python counts them; where JavaScript counts UTF-16 code units (`length`,
 * `charCodeAt`, `slice`, selection offsets) the model goes through `Utf16`.
 * `trim` is modelled exactly (it removes the ECMAScript WhiteSpace and
 * LineTerminator characters); case mapping of arbitrary text is NOT modelled
 * here: operations that lower-case text take the mapping as a parameter.
 */
module JsText {

  /** ECMAScript WhiteSpace or LineTerminator: exactly what `String.prototype.trim` strips. */
  predicate IsSpace(c: char) {
    || c == ' ' || c == '\t' || c == '\n' || c == '\r'
    || c == '\U{000B}' || c == '\U{000C}' || c == '\U{00A0}' || c == '\U{1680}'
    || ('\U{2000}' <= c <= '\U{200A}')
    || c == '\U{2028}' || c == '\U{2029}' || c == '\U{202F}' || c == '\U{205F}'
    || c == '\U{3000}' || c == '\U{FEFF}'
  }

  /** ECMAScript LineTerminator: the code units a regular-expression `.` does not match. */
  predicate IsLineTerminator(c: char) {
    c == '\n' || c == '\r' || c == '\U{2028}' || c == '\U{2029}'
  }

  predicate NoLineTerminator(s: string) {
    forall k :: 0 <= k < |s| ==> !IsLineTerminator(s[k])
  }

  predicate AllSpace(s: string) {
    forall k :: 0 <= k < |s| ==> IsSpace(s[k])
  }

  /** The number of white-space characters `s` starts with. */
  function LeadingSpace(s: string): (n: nat)
    ensures n <= |s| && AllSpace(s[..n])
    ensures n < |s| ==> !IsSpace(s[n])
  {
    if |s| > 0 && IsSpace(s[0]) then
      var m := LeadingSpace(s[1..]);
      LeadingStep(s, m);
      1 + m
    else 0
  }

  /** White space at the start of `s` followed by `m` more white-space characters makes `m + 1`. */
  lemma LeadingStep(s: string, m: nat)
    requires |s| > 0 && IsSpace(s[0])
    requires m <= |s| - 1 && AllSpace(s[1..][..m])
    requires m < |s| - 1 ==> !IsSpace(s[1..][m])
    ensures AllSpace(s[..1 + m])
    ensures 1 + m < |s| ==> !IsSpace(s[1 + m])
  {
    assert s[..1 + m] == [s[0]] + s[1..][..m];
  }

  /** The number of white-space characters `s` ends with. */
  function TrailingSpace(s: string): (n: nat)
    ensures n <= |s| && AllSpace(s[|s| - n..])
    ensures n < |s| ==> !IsSpace(s[|s| - n - 1])
  {
    if |s| > 0 && IsSpace(s[|s| - 1]) then
      var m := TrailingSpace(s[..|s| - 1]);
      TrailingStep(s, m);
      1 + m
    else 0
  }

  /** White space at the end of `s` followed by `m` more white-space characters before it makes `m + 1`. */
  lemma TrailingStep(s: string, m: nat)
    requires |s| > 0 && IsSpace(s[|s| - 1])
    requires m <= |s| - 1 && AllSpace(s[..|s| - 1][|s| - 1 - m..])
    requires m < |s| - 1 ==> !IsSpace(s[..|s| - 1][|s| - 1 - m - 1])
    ensures AllSpace(s[|s| - (1 + m)..])
    ensures 1 + m < |s| ==> !IsSpace(s[|s| - (1 + m) - 1])
  {
    var t := s[..|s| - 1];
    var tail := s[|s| - (1 + m)..];
    assert forall k :: 0 <= k < |tail| - 1 ==> tail[k] == t[|t| - m..][k];
    assert tail[|tail| - 1] == s[|s| - 1];
  }

  /**
   * JavaScript `s.trim()`: `s` without its leading and trailing white space.  The
   * result is the infix of `s` starting after the leading white space, followed in
   * `s` only by white space, and it neither starts nor ends with white space.
   */
  function Trim(s: string): (r: string)
    ensures LeadingSpace(s) + |r| <= |s|
    ensures r == s[LeadingSpace(s)..LeadingSpace(s) + |r|]
    ensures AllSpace(s[LeadingSpace(s) + |r|..])
    ensures r == [] || (!IsSpace(r[0]) && !IsSpace(r[|r| - 1]))
  {
    var i := LeadingSpace(s);
    var a := s[i..];
    var n := TrailingSpace(a);
    TrimCut(s, i, n);
    a[..|a| - n]
  }

  /** Cutting `i` leading and `n` trailing white-space characters leaves an infix that neither starts nor ends with white space. */
  lemma TrimCut(s: string, i: nat, n: nat)
    requires i <= |s| && n <= |s| - i
    requires i < |s| ==> !IsSpace(s[i])
    requires AllSpace(s[i..][|s| - i - n..])
    requires n < |s| - i ==> !IsSpace(s[i..][|s| - i - n - 1])
    ensures var r := s[i..][..|s| - i - n];
            && r == s[i..i + |r|]
            && AllSpace(s[i + |r|..])
            && (r == [] || (!IsSpace(r[0]) && !IsSpace(r[|r| - 1])))
  {
    var a := s[i..];
    var r := a[..|a| - n];
    assert a[|a| - n..] == s[i + |r|..];
    assert r != [] ==> r[0] == s[i] && r[|r| - 1] == a[|a| - n - 1];
  }

  /** JavaScript `!s.trim()`: the string is empty after trimming. */
  predicate IsBlank(s: string) {
    Trim(s) == []
  }

  /** A string is blank exactly when every code unit of it is white space. */
  lemma BlankIffAllSpace(s: string)
    ensures IsBlank(s) <==> AllSpace(s)
  {
    var i := LeadingSpace(s);
    if Trim(s) == [] {
      assert s[..i] == s;
    } else {
      assert s[i] == Trim(s)[0];
    }
  }

  /** Trimming twice is trimming once. */
  lemma TrimIdempotent(s: string)
    ensures Trim(Trim(s)) == Trim(s)
  {
    var r := Trim(s);
    assert LeadingSpace(r) == 0;
    assert r[0..] == r;
    assert TrailingSpace(r) == 0;
  }

  /** JavaScript `s.startsWith(p)` / `p` is a prefix of `s`. */
  predicate StartsWith(s: string, p: string) {
    |p| <= |s| && s[..|p|] == p
  }

  /** JavaScript `s.includes(t)`: `t` occurs at some position of `s`. */
  predicate Contains(s: string, t: string) {
    exists i | 0 <= i <= |s| - |t| :: OccursAt(s, t, i)
  }

  predicate OccursAt(s: string, t: string, i: int) {
    0 <= i && i + |t| <= |s| && s[i..i + |t|] == t
  }

  predicate IsDigit(c: char) {
    '0' <= c <= '9'
  }

  predicate AllDigits(s: string) {
    forall k :: 0 <= k < |s| ==> IsDigit(s[k])
  }

  function DigitChar(d: nat): (c: char)
    requires d < 10
    ensures IsDigit(c) && (c as int) - ('0' as int) == d
  {
    ['0', '1', '2', '3', '4', '5', '6', '7', '8', '9'][d]
  }

  /** JavaScript `String(n)` / template interpolation of a non-negative integer. */
  function Decimal(n: nat): (r: string)
    ensures |r| >= 1 && AllDigits(r)
    ensures r[0] == '0' ==> n == 0
  {
    if n < 10 then [DigitChar(n)] else Decimal(n / 10) + [DigitChar(n % 10)]
  }

  /** `parseInt(ds, 10)` of a non-empty run of decimal digits. */
  function ParseDecimal(ds: string): nat
    requires AllDigits(ds)
  {
    if |ds| == 0 then 0
    else ParseDecimal(ds[..|ds| - 1]) * 10 + ((ds[|ds| - 1] as int) - ('0' as int))
  }

  /** Printing a number in decimal and parsing it back gives the number. */
  lemma {:induction false} ParseDecimalOfDecimal(n: nat)
    ensures ParseDecimal(Decimal(n)) == n
  {
    if n >= 10 {
      var ds := Decimal(n);
      assert ds[..|ds| - 1] == Decimal(n / 10);
      ParseDecimalOfDecimal(n / 10);
    }
  }

  /** The length of the longest prefix of `s` made of decimal digits. */
  function DigitRun(s: string): (n: nat)
    ensures n <= |s| && AllDigits(s[..n])
    ensures n < |s| ==> !IsDigit(s[n])
  {
    if |s| > 0 && IsDigit(s[0]) then
      var m := DigitRun(s[1..]);
      assert s[..1 + m] == [s[0]] + s[1..][..m];
      1 + m
    else 0
  }

  /** JavaScript `s.replace(/a/g, b)` for a one-code-unit pattern. */
  function ReplaceAll(s: string, a: char, b: char): (r: string)
    ensures |r| == |s|
    ensures forall k :: 0 <= k < |s| ==> r[k] == (if s[k] == a then b else s[k])
  {
    if |s| == 0 then [] else [if s[0] == a then b else s[0]] + ReplaceAll(s[1..], a, b)
  }

  /** After replacing every `a` by a different `b`, no `a` is left. */
  lemma ReplaceAllRemoves(s: string, a: char, b: char)
    requires a != b
    ensures forall k :: 0 <= k < |ReplaceAll(s, a, b)| ==> ReplaceAll(s, a, b)[k] != a
  {
  }

  /** JavaScript `s.split(c)` for a one-code-unit separator: always at least one piece. */
  function Split(s: string, c: char): (r: seq<string>)
    ensures |r| >= 1
    ensures forall p, k :: p in r && 0 <= k < |p| ==> p[k] != c
  {
    if |s| == 0 then [[]]
    else
      var rest := Split(s[1..], c);
      if s[0] == c then [[]] + rest else [[s[0]] + rest[0]] + rest[1..]
  }

  /** JavaScript `ps.join(c)`. */
  function Join(ps: seq<string>, c: char): string
    requires |ps| >= 1
  {
    if |ps| == 1 then ps[0] else ps[0] + [c] + Join(ps[1..], c)
  }

  /** Joining the pieces of a split with the same separator gives the original string back. */
  lemma {:induction false} JoinSplit(s: string, c: char)
    ensures Join(Split(s, c), c) == s
  {
    if |s| > 0 {
      var rest := Split(s[1..], c);
      JoinSplit(s[1..], c);
      assert s == [s[0]] + s[1..];
      if s[0] == c {
        assert Split(s, c) == [[]] + rest;
        assert (([[]] + rest)[1..]) == rest;
      } else if |rest| == 1 {
        assert Split(s, c) == [[s[0]] + rest[0]];
      } else {
        var pieces := [[s[0]] + rest[0]] + rest[1..];
        assert Split(s, c) == pieces;
        assert pieces[1..] == rest[1..];
        assert Join(pieces, c) == ([s[0]] + rest[0]) + [c] + Join(rest[1..], c);
        assert Join(rest, c) == rest[0] + [c] + Join(rest[1..], c);
      }
    }
  }

  /** A piece without the separator before the rest of a string extends the rest's first piece. */
  lemma {:induction false} SplitPrefix(p: string, t: string, c: char)
    requires c !in p
    ensures Split(p + t, c) == [p + Split(t, c)[0]] + Split(t, c)[1..]
  {
    if |p| == 0 {
      var r := Split(t, c);
      assert p + t == t;
      assert p + r[0] == r[0];
      assert r == [r[0]] + r[1..];
    } else {
      assert (p + t)[0] == p[0];
      assert (p + t)[1..] == p[1..] + t;
      SplitPrefix(p[1..], t, c);
      assert [p[0]] + (p[1..] + Split(t, c)[0]) == p + Split(t, c)[0];
    }
  }

  /** Splitting a join of pieces free of the separator gives the pieces back. */
  lemma {:induction false} SplitJoin(ps: seq<string>, c: char)
    requires |ps| >= 1
    requires forall k :: 0 <= k < |ps| ==> c !in ps[k]
    ensures Split(Join(ps, c), c) == ps
  {
    if |ps| == 1 {
      SplitPrefix(ps[0], [], c);
      assert ps[0] + [] == ps[0];
    } else {
      var rest := Join(ps[1..], c);
      SplitJoin(ps[1..], c);
      assert Split([c] + rest, c) == [[]] + Split(rest, c);
      SplitPrefix(ps[0], [c] + rest, c);
      assert ps[0] + ([c] + rest) == ps[0] + [c] + rest;
      assert ps[0] + [] == ps[0];
      assert ps == [ps[0]] + ps[1..];
    }
  }

  /** `ps.filter(Boolean)` on strings: the non-empty pieces, in order. */
  function NonEmpty(ps: seq<string>): (r: seq<string>)
    ensures forall p :: p in r <==> p in ps && p != []
    ensures |r| <= |ps|
    ensures (forall k :: 0 <= k < |ps| ==> ps[k] != []) ==> r == ps
  {
    if |ps| == 0 then [] else (if ps[0] == [] then [] else [ps[0]]) + NonEmpty(ps[1..])
  }

  // UTF-16

  /** The UTF-16 code units of `c`: itself below U+10000, otherwise a high and a low surrogate. */
  function CodeUnits(c: char): (r: seq<int>)
    ensures |r| == 1 <==> c as int < 0x1_0000
    ensures |r| == 1 || |r| == 2
    ensures |r| == 1 ==> r[0] == c as int
    ensures |r| == 2 ==>
              && 0xD800 <= r[0] < 0xDC00 && 0xDC00 <= r[1] < 0xE000
              && 0x1_0000 + (r[0] - 0xD800) * 0x400 + (r[1] - 0xDC00) == c as int
  {
    var v := c as int;
    if v < 0x1_0000 then [v]
    else [0xD800 + (v - 0x1_0000) / 0x400, 0xDC00 + (v - 0x1_0000) % 0x400]
  }

  /** A character JavaScript stores in one code unit. */
  predicate InBmp(c: char) {
    c as int < 0x1_0000
  }

  /** The code units JavaScript holds for `s`, the ones `charCodeAt` reads in turn. */
  function Utf16(s: string): (r: seq<int>)
    ensures |s| <= |r| <= 2 * |s|
  {
    if |s| == 0 then [] else Utf16(s[..|s| - 1]) + CodeUnits(s[|s| - 1])
  }

  /** JavaScript's length of a text is its number of characters exactly when none of them is astral. */
  lemma {:induction false} LengthInBmp(s: string)
    ensures Length(s) == |s| <==> forall k :: 0 <= k < |s| ==> InBmp(s[k])
  {
    if |s| > 0 {
      var t := s[..|s| - 1];
      LengthInBmp(t);
      assert forall k :: 0 <= k < |t| ==> t[k] == s[k];
    }
  }

  /** JavaScript's `s.length`: the number of UTF-16 code units. */
  function Length(s: string): nat {
    |Utf16(s)|
  }

  /** The code units of a concatenation are those of its parts, one after the other. */
  lemma {:induction false} Utf16Append(a: string, b: string)
    ensures Utf16(a + b) == Utf16(a) + Utf16(b)
    decreases |b|
  {
    if |b| > 0 {
      var b' := b[..|b| - 1];
      assert (a + b)[..|a + b| - 1] == a + b';
      Utf16Append(a, b');
    } else {
      assert a + b == a;
    }
  }

  /** One more character adds its own code units at the end. */
  lemma Utf16Snoc(s: string, c: char)
    ensures Utf16(s + [c]) == Utf16(s) + CodeUnits(c)
  {
    assert (s + [c])[..|s|] == s;
  }

  /** An astral character is two code units long in JavaScript. */
  lemma OneAstralCharacter(c: char)
    requires !InBmp(c)
    ensures Length([c]) == 2
  {
    assert [c][..0] == [];
  }

  /** JavaScript's length of a concatenation is the sum of the lengths. */
  lemma LengthAppend(a: string, b: string)
    ensures Length(a + b) == Length(a) + Length(b)
  {
    Utf16Append(a, b);
  }

  /** Each character adds one or two code units, so a longer prefix is longer in code units too. */
  lemma PrefixLengthGrows(s: string, i: nat, j: nat)
    requires i <= j <= |s|
    ensures Length(s[..i]) + (j - i) <= Length(s[..j])
  {
    Utf16Append(s[..i], s[i..j]);
    assert s[..i] + s[i..j] == s[..j];
  }

  /**
   * The number of characters of `s` whose code units fit in the first `u`:
   * where `s.slice(0, u)` ends, rounded down to a whole character when `u`
   * falls between the two halves of a surrogate pair.
   */
  function FitPrefix(s: string, u: nat): (n: nat)
    ensures n <= |s|
  {
    if |s| == 0 || |CodeUnits(s[0])| > u then 0 else 1 + FitPrefix(s[1..], u - |CodeUnits(s[0])|)
  }

  /** `FitPrefix` keeps the longest run of leading characters whose code units fit in `u`. */
  lemma {:induction false} FitPrefixLongest(s: string, u: nat)
    ensures FitPrefix(s, u) <= |s| && Length(s[..FitPrefix(s, u)]) <= u
    ensures FitPrefix(s, u) < |s| ==> Length(s[..FitPrefix(s, u) + 1]) > u
  {
    if |s| == 0 {
      assert s[..0] == [];
    } else {
      var w := |CodeUnits(s[0])|;
      if w > u {
        assert FitPrefix(s, u) == 0 && s[..0] == [] && s[1..][..0] == [];
        LengthAfterFirst(s, 0);
      } else {
        var m := FitPrefix(s[1..], u - w);
        assert FitPrefix(s, u) == m + 1;
        FitPrefixLongest(s[1..], u - w);
        FitStep(s, u, m);
      }
    }
  }

  /** The step of `FitPrefix`: the first character fits, and `m` more fit in what is left. */
  lemma FitStep(s: string, u: nat, m: nat)
    requires 0 < |s| && |CodeUnits(s[0])| <= u && m <= |s| - 1
    requires Length(s[1..][..m]) <= u - |CodeUnits(s[0])|
    requires m < |s| - 1 ==> Length(s[1..][..m + 1]) > u - |CodeUnits(s[0])|
    ensures Length(s[..m + 1]) <= u
    ensures m + 1 < |s| ==> Length(s[..m + 2]) > u
  {
    LengthAfterFirst(s, m);
    if m + 1 < |s| {
      LengthAfterFirst(s, m + 1);
    }
  }

  /** The code units of the first `m + 1` characters: the first character's, then those of the next `m`. */
  lemma LengthAfterFirst(s: string, m: nat)
    requires m < |s|
    ensures Length(s[..m + 1]) == |CodeUnits(s[0])| + Length(s[1..][..m])
  {
    assert s[..m + 1] == [s[0]] + s[1..][..m];
    Utf16Append([s[0]], s[1..][..m]);
    assert [s[0]] == [] + [s[0]];
  }

  /** Cutting at the code-unit length of a prefix gives that prefix back. */
  lemma FitPrefixOfLength(s: string, p: nat)
    requires p <= |s|
    ensures FitPrefix(s, Length(s[..p])) == p
  {
    var n := FitPrefix(s, Length(s[..p]));
    FitPrefixLongest(s, Length(s[..p]));
    if n > p {
      PrefixLengthGrows(s, p, n);
    } else if n < p {
      PrefixLengthGrows(s, n + 1, p);
    }
  }

  /** On text without astral characters, code units and characters coincide. */
  lemma {:induction false} FitPrefixInBmp(s: string, u: nat)
    requires forall k :: 0 <= k < |s| ==> InBmp(s[k])
    ensures FitPrefix(s, u) == if u < |s| then u else |s|
  {
    var n := FitPrefix(s, u);
    FitPrefixLongest(s, u);
    assert forall m :: 0 <= m <= |s| ==> Length(s[..m]) == m by {
      forall m | 0 <= m <= |s| ensures Length(s[..m]) == m {
        assert forall k :: 0 <= k < m ==> s[..m][k] == s[k];
        LengthInBmp(s[..m]);
      }
    }
  }
}
