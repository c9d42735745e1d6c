/**
 * The outline extractor's text heuristics: punctuation normalisation, the inline
 * clean-up applied to heading text, per-page heading classification, and the
 * merge of pages, table-of-contents rows and the document title.
 */
module Outline {
  import opened PyStrings

  // ------------------------------------------------------------------
  // normalize_punctuation
  // ------------------------------------------------------------------

  /** The replacement table, in insertion order. */
  const PunctuationTable: seq<(char, string)> := [
    ('\U{2018}', "'"), ('\U{2019}', "'"),
    ('\U{201C}', "\""), ('\U{201D}', "\""),
    ('\U{2013}', "-"), ('\U{2014}', "-"),
    ('\U{2026}', "...")
  ]

  predicate IsUnicodePunctuation(c: char) {
    c == '\U{2018}' || c == '\U{2019}' || c == '\U{201C}' || c == '\U{201D}'
    || c == '\U{2013}' || c == '\U{2014}' || c == '\U{2026}'
  }

  function NormalizePunctuation(s: string): string {
    ReplaceEach(s, PunctuationTable)
  }

  /** The keys of the table are exactly the seven characters, and no replacement holds a key. */
  lemma PunctuationTableShape()
    ensures forall c :: IsUnicodePunctuation(c) <==> exists i :: 0 <= i < |PunctuationTable| && PunctuationTable[i].0 == c
    ensures forall j, m :: 0 <= j < |PunctuationTable| && 0 <= m < |PunctuationTable| ==>
      PunctuationTable[j].0 !in PunctuationTable[m].1
  {
    forall c | IsUnicodePunctuation(c)
      ensures exists i :: 0 <= i < |PunctuationTable| && PunctuationTable[i].0 == c
    {
      var i := if c == '\U{2018}' then 0 else if c == '\U{2019}' then 1
        else if c == '\U{201C}' then 2 else if c == '\U{201D}' then 3
        else if c == '\U{2013}' then 4 else if c == '\U{2014}' then 5 else 6;
      assert PunctuationTable[i].0 == c;
    }
  }

  /** None of the seven unicode punctuation characters survives. */
  lemma NormalizeRemovesUnicode(s: string)
    ensures forall c :: c in NormalizePunctuation(s) ==> !IsUnicodePunctuation(c)
  {
    PunctuationTableShape();
    forall i | 0 <= i < |PunctuationTable| ensures PunctuationTable[i].0 !in NormalizePunctuation(s) {
      ReplaceEachRemoves(s, PunctuationTable, i);
    }
  }

  /** A string free of the seven characters is already normalised. */
  lemma NormalizeAbsent(s: string)
    requires forall c :: c in s ==> !IsUnicodePunctuation(c)
    ensures NormalizePunctuation(s) == s
  {
    PunctuationTableShape();
    ReplaceEachAbsent(s, PunctuationTable);
  }

  lemma NormalizeIdempotent(s: string)
    ensures NormalizePunctuation(NormalizePunctuation(s)) == NormalizePunctuation(s)
  {
    NormalizeRemovesUnicode(s);
    NormalizeAbsent(NormalizePunctuation(s));
  }

  // ------------------------------------------------------------------
  // re.sub(r'_?\*\*(.*?)\*\*_?', r'\1', s)
  // ------------------------------------------------------------------

  predicate CloseAt(s: string, m: nat) {
    m + 1 < |s| && s[m] == '*' && s[m + 1] == '*'
  }

  /** First index at or after `k` that holds a newline or starts "**", or |s|: where `(.*?)` must stop. */
  function BoldCloseFrom(s: string, k: nat): (j: nat)
    requires k <= |s|
    ensures k <= j <= |s|
    ensures forall m :: k <= m < j ==> s[m] != '\n'
    ensures forall m :: k <= m < j ==> !CloseAt(s, m)
    ensures j < |s| ==> s[j] == '\n' || CloseAt(s, j)
    decreases |s| - k
  {
    if k == |s| || s[k] == '\n' || CloseAt(s, k) then k else BoldCloseFrom(s, k + 1)
  }

  /**
   * At each position, an optional '_', then "**", the shortest run of non-newline characters
   * up to the next "**", and an optional '_' are replaced by that run.
   */
  function UnwrapBold(s: string): (r: string)
    ensures forall c :: c in r ==> c in s
    ensures '*' !in s ==> r == s
    decreases |s|
  {
    if s == [] then []
    else
      var a := if s[0] == '_' then 1 else 0;
      if a + 2 <= |s| && s[a] == '*' && s[a + 1] == '*' then
        var j := BoldCloseFrom(s, a + 2);
        if j < |s| && s[j] != '\n' then
          var e := if j + 2 < |s| && s[j + 2] == '_' then j + 3 else j + 2;
          s[a + 2..j] + UnwrapBold(s[e..])
        else [s[0]] + UnwrapBold(s[1..])
      else [s[0]] + UnwrapBold(s[1..])
  }

  predicate IsBoldMark(c: char) { c == '*' || c == '_' }

  /** `s` with every '*' and '_' removed. */
  function DropBoldMarks(s: string): string {
    if s == [] then [] else (if IsBoldMark(s[0]) then [] else [s[0]]) + DropBoldMarks(s[1..])
  }

  lemma {:induction false} DropBoldMarksAppend(a: string, b: string)
    ensures DropBoldMarks(a + b) == DropBoldMarks(a) + DropBoldMarks(b)
    decreases |a|
  {
    if a == [] {
      assert a + b == b;
    } else {
      assert (a + b)[0] == a[0];
      assert (a + b)[1..] == a[1..] + b;
      DropBoldMarksAppend(a[1..], b);
    }
  }

  lemma {:induction false} DropBoldMarksOfMarks(a: string)
    requires forall k :: 0 <= k < |a| ==> IsBoldMark(a[k])
    ensures DropBoldMarks(a) == []
    decreases |a|
  {
    if a != [] {
      DropBoldMarksOfMarks(a[1..]);
    }
  }

  /** Removing the marks of one match leaves the marks-free text of the group and of what follows. */
  lemma BoldMatchMarks(s: string, a: nat, j: nat, e: nat)
    requires a <= 1 && a + 2 <= j && j + 2 <= e <= |s| && (a == 1 ==> s[0] == '_')
    requires s[a] == '*' && s[a + 1] == '*' && s[j] == '*' && s[j + 1] == '*'
    requires e == j + 2 || (e == j + 3 && s[j + 2] == '_')
    ensures DropBoldMarks(s) == DropBoldMarks(s[a + 2..j]) + DropBoldMarks(s[e..])
  {
    var group, close, rest := s[a + 2..j], s[j..e], s[e..];
    var t := group + (close + rest);
    calc {
      DropBoldMarks(s);
      { Cut3(s, a + 2, j, e); }
      DropBoldMarks(s[..a + 2] + t);
      { OpenMarks(s, a); MarksSliceDropped(s, 0, a + 2, t); assert s[0..a + 2] == s[..a + 2]; }
      DropBoldMarks(t);
      { DropBoldMarksAppend(group, close + rest); }
      DropBoldMarks(group) + DropBoldMarks(close + rest);
      { CloseMarks(s, j, e); MarksSliceDropped(s, j, e, rest); }
      DropBoldMarks(group) + DropBoldMarks(rest);
    }
  }

  lemma OpenMarks(s: string, a: nat)
    requires a <= 1 && a + 2 <= |s| && (a == 1 ==> s[0] == '_') && s[a] == '*' && s[a + 1] == '*'
    ensures forall k :: 0 <= k < a + 2 ==> IsBoldMark(s[k])
  {
  }

  lemma CloseMarks(s: string, j: nat, e: nat)
    requires j + 2 <= e <= |s| && s[j] == '*' && s[j + 1] == '*'
    requires e == j + 2 || (e == j + 3 && s[j + 2] == '_')
    ensures forall k :: j <= k < e ==> IsBoldMark(s[k])
  {
  }

  lemma MarksSliceDropped(s: string, i: nat, j: nat, t: string)
    requires i <= j <= |s| && forall k :: i <= k < j ==> IsBoldMark(s[k])
    ensures DropBoldMarks(s[i..j] + t) == DropBoldMarks(t)
  {
    var m := s[i..j];
    assert forall k :: 0 <= k < |m| ==> m[k] == s[i + k];
    DropBoldMarksOfMarks(m);
    DropBoldMarksAppend(m, t);
  }

  /** The bold rewrite only ever removes '*' and '_' characters: everything else is kept, in order. */
  lemma {:induction false} UnwrapBoldKeepsText(s: string)
    ensures DropBoldMarks(UnwrapBold(s)) == DropBoldMarks(s)
    decreases |s|
  {
    if s != [] {
      var a := if s[0] == '_' then 1 else 0;
      var j := if a + 2 <= |s| then BoldCloseFrom(s, a + 2) else 0;
      if a + 2 <= |s| && s[a] == '*' && s[a + 1] == '*' && j < |s| && s[j] != '\n' {
        var e := if j + 2 < |s| && s[j + 2] == '_' then j + 3 else j + 2;
        UnwrapBoldKeepsText(s[e..]);
        assert UnwrapBold(s) == s[a + 2..j] + UnwrapBold(s[e..]);
        DropBoldMarksAppend(s[a + 2..j], UnwrapBold(s[e..]));
        BoldMatchMarks(s, a, j, e);
      } else {
        UnwrapBoldKeepsText(s[1..]);
        var u := [s[0]] + UnwrapBold(s[1..]);
        assert UnwrapBold(s) == u;
        assert u[0] == s[0] && u[1..] == UnwrapBold(s[1..]);
      }
    }
  }

  // ------------------------------------------------------------------
  // re.sub(r'(?:\b)(\d+)$', '', s)
  // ------------------------------------------------------------------

  /** Start of the longest run of ASCII digits that ends `s`. */
  function DigitRunStart(s: string): (b: nat)
    ensures b <= |s|
    ensures forall k :: b <= k < |s| ==> IsAsciiDigit(s[k])
    ensures b > 0 ==> !IsAsciiDigit(s[b - 1])
    decreases |s|
  {
    if s != [] && IsAsciiDigit(s[|s| - 1]) then DigitRunStart(s[..|s| - 1]) else |s|
  }

  /**
   * The pattern matches `s[b..e]`: a non-empty digit run at a word boundary, ending at the
   * end of the string or just before a final newline (where `$` also matches).
   */
  predicate TrailingNumberAt(s: string, b: nat, e: nat) {
    && b < e <= |s|
    && (forall k :: b <= k < e ==> IsAsciiDigit(s[k]))
    && (b == 0 || !IsWordChar(s[b - 1]))
    && (e == |s| || (e == |s| - 1 && s[e] == '\n'))
  }

  /** Where `$` may match: before a final newline, else at the end. */
  function NumberEnd(s: string): nat {
    if s != [] && s[|s| - 1] == '\n' then |s| - 1 else |s|
  }

  /** The one span the pattern can match, if any. */
  function TrailingNumber(s: string): (m: Option<(nat, nat)>)
    ensures m.Some? ==> TrailingNumberAt(s, m.value.0, m.value.1)
  {
    var core := NumberEnd(s);
    var b := DigitRunStart(s[..core]);
    if b < core && (b == 0 || !IsWordChar(s[b - 1])) then Some((b, core)) else None
  }

  lemma TrailingNumberUnique(s: string, b: nat, e: nat)
    requires TrailingNumberAt(s, b, e)
    ensures e == NumberEnd(s) && b == DigitRunStart(s[..e])
  {
    assert IsAsciiDigit(s[e - 1]);
    var t := s[..e];
    assert forall k :: 0 <= k < e ==> t[k] == s[k];
  }

  /** The pattern matches exactly the span found. */
  lemma TrailingNumberExact(s: string, b: nat, e: nat)
    ensures TrailingNumberAt(s, b, e) <==> TrailingNumber(s) == Some((b, e))
  {
    if TrailingNumberAt(s, b, e) {
      TrailingNumberUnique(s, b, e);
    }
  }

  function DropTrailingNumber(s: string): (r: string)
    ensures forall c :: c in r ==> c in s
  {
    match TrailingNumber(s)
    case None => s
    case Some((b, e)) => s[..b] + s[e..]
  }

  lemma DropTrailingNumberSpec(s: string)
    ensures forall b: nat, e: nat {:trigger TrailingNumberAt(s, b, e)} ::
      TrailingNumberAt(s, b, e) ==> DropTrailingNumber(s) == s[..b] + s[e..]
    ensures (forall b: nat, e: nat {:trigger TrailingNumberAt(s, b, e)} :: !TrailingNumberAt(s, b, e)) ==>
      DropTrailingNumber(s) == s
  {
    forall b: nat, e: nat
      ensures TrailingNumberAt(s, b, e) ==> DropTrailingNumber(s) == s[..b] + s[e..]
    {
      TrailingNumberExact(s, b, e);
    }
    match TrailingNumber(s)
    case None =>
    case Some((b, e)) =>
      assert TrailingNumberAt(s, b, e);
  }

  // ------------------------------------------------------------------
  // re.sub(r'[\.\-\,\"\=]{2,}', '', s)
  // ------------------------------------------------------------------

  predicate IsRunPunct(c: char) {
    c == '.' || c == '-' || c == ',' || c == '"' || c == '='
  }

  /** No two neighbouring characters are both from `. - , " =`. */
  predicate NoAdjacentRunPunct(s: string) {
    forall i :: 0 <= i < |s| ==> !RunPunctPairAt(s, i)
  }

  predicate RunPunctPairAt(s: string, i: nat) {
    i + 1 < |s| && IsRunPunct(s[i]) && IsRunPunct(s[i + 1])
  }

  /** Deletes every maximal run of two or more characters from `. - , " =`. */
  function DropPunctuationRuns(s: string): (r: string)
    ensures forall c :: c in r ==> c in s
    ensures s != [] && !IsRunPunct(s[0]) ==> r != [] && r[0] == s[0]
    ensures (forall k :: 0 <= k < |s| ==> !IsRunPunct(s[k])) ==> r == s
    decreases |s|
  {
    if s == [] then []
    else if IsRunPunct(s[0]) then
      var n := Span(s, IsRunPunct);
      if n >= 2 then DropPunctuationRuns(s[n..]) else [s[0]] + DropPunctuationRuns(s[1..])
    else [s[0]] + DropPunctuationRuns(s[1..])
  }

  /** After the rewrite no two neighbouring characters are both from `. - , " =`. */
  lemma {:induction false} DropPunctuationRunsNoAdjacent(s: string)
    ensures NoAdjacentRunPunct(DropPunctuationRuns(s))
    decreases |s|
  {
    if s != [] {
      var n := Span(s, IsRunPunct);
      if IsRunPunct(s[0]) && n >= 2 {
        DropPunctuationRunsNoAdjacent(s[n..]);
      } else {
        var t := DropPunctuationRuns(s[1..]);
        DropPunctuationRunsNoAdjacent(s[1..]);
        var r := [s[0]] + t;
        assert DropPunctuationRuns(s) == r;
        if IsRunPunct(s[0]) && |s| > 1 {
          assert n == 1 && !IsRunPunct(s[1]);
          assert s[1..][0] == s[1];
        }
        forall i | 0 <= i < |r| ensures !RunPunctPairAt(r, i) {
          if i > 0 {
            assert RunPunctPairAt(r, i) == RunPunctPairAt(t, i - 1);
          }
        }
      }
    }
  }

  lemma NoAdjacentSlice(s: string, i: nat, j: nat)
    requires i <= j <= |s| && NoAdjacentRunPunct(s)
    ensures NoAdjacentRunPunct(s[i..j])
  {
    var t := s[i..j];
    forall k | 0 <= k < |t| ensures !RunPunctPairAt(t, k) {
      assert !RunPunctPairAt(s, i + k);
      assert k + 1 < |t| ==> t[k] == s[i + k] && t[k + 1] == s[i + k + 1];
    }
  }

  lemma {:induction false} WordsNoAdjacent(s: string)
    requires NoAdjacentRunPunct(s)
    ensures forall k :: 0 <= k < |Words(s)| ==> NoAdjacentRunPunct(Words(s)[k])
    decreases |s|
  {
    var b := SkipFrom(s, 0, false);
    if b < |s| {
      var e := SkipFrom(s, b, true);
      NoAdjacentSlice(s, b, e);
      NoAdjacentSlice(s, e, |s|);
      assert s[e..|s|] == s[e..];
      WordsNoAdjacent(s[e..]);
      var ws := Words(s);
      assert ws == [s[b..e]] + Words(s[e..]);
      assert ws[0] == s[b..e];
      forall k | 0 <= k < |ws| ensures NoAdjacentRunPunct(ws[k]) {
        if k > 0 {
          assert ws[k] == Words(s[e..])[k - 1];
        }
      }
    }
  }

  lemma {:induction false} JoinNoAdjacent(ws: seq<string>)
    requires forall k :: 0 <= k < |ws| ==> NoAdjacentRunPunct(ws[k])
    ensures NoAdjacentRunPunct(Join(ws, " "))
    decreases |ws|
  {
    if |ws| > 1 {
      var w, rest := ws[0], Join(ws[1..], " ");
      JoinNoAdjacent(ws[1..]);
      var r := w + " " + rest;
      assert Join(ws, " ") == r;
      forall i: nat | i + 1 < |r| ensures !RunPunctPairAt(r, i) {
        if i + 1 < |w| {
          assert r[i] == w[i] && r[i + 1] == w[i + 1];
          assert !RunPunctPairAt(w, i);
        } else if i + 1 == |w| {
          assert r[i + 1] == ' ';
        } else if i == |w| {
          assert r[i] == ' ';
        } else {
          assert r[i] == rest[i - |w| - 1] && r[i + 1] == rest[i - |w|];
          assert !RunPunctPairAt(rest, i - |w| - 1);
        }
      }
    }
  }

  lemma AbsentCons(w: string, ws: seq<string>, c: char)
    requires c !in w && forall k :: 0 <= k < |ws| ==> c !in ws[k]
    ensures forall k :: 0 <= k < |[w] + ws| ==> c !in ([w] + ws)[k]
  {
    forall k | 0 <= k < |[w] + ws| ensures c !in ([w] + ws)[k] {
      if k > 0 {
        assert ([w] + ws)[k] == ws[k - 1];
      }
    }
  }

  lemma {:induction false} WordsAbsent(s: string, c: char)
    requires c !in s
    ensures forall k :: 0 <= k < |Words(s)| ==> c !in Words(s)[k]
    decreases |s|
  {
    var b := SkipFrom(s, 0, false);
    if b < |s| {
      var e := SkipFrom(s, b, true);
      NotInSlice(s, c, b, e);
      NotInSlice(s, c, e, |s|);
      WordsAbsent(s[e..], c);
      AbsentCons(s[b..e], Words(s[e..]), c);
    }
  }

  lemma {:induction false} JoinAbsent(ws: seq<string>, sep: string, c: char)
    requires c !in sep
    requires forall k :: 0 <= k < |ws| ==> c !in ws[k]
    ensures c !in Join(ws, sep)
    decreases |ws|
  {
    if |ws| > 1 {
      JoinAbsent(ws[1..], sep, c);
    }
  }

  // ------------------------------------------------------------------
  // strip_inline_bold
  // ------------------------------------------------------------------

  function StripInlineBold(s: string): string {
    var t1 := NormalizePunctuation(s);
    var t2 := Unwrap(t1, '`');
    var t3 := Delete(t2, '`');
    var t4 := UnwrapBold(t3);
    var t5 := DropTrailingNumber(t4);
    var t6 := DropPunctuationRuns(t5);
    Strip(Join(Words(t6), " "))
  }

  /**
   * The cleaned text holds no backtick, is single-spaced with no whitespace at either end,
   * and has no two neighbouring characters from `. - , " =`.
   */
  lemma StripInlineBoldClean(s: string)
    ensures '`' !in StripInlineBold(s)
    ensures SingleSpaced(StripInlineBold(s))
    ensures NoAdjacentRunPunct(StripInlineBold(s))
  {
    var t1 := NormalizePunctuation(s);
    var t2 := Unwrap(t1, '`');
    var t3 := Delete(t2, '`');
    var t4 := UnwrapBold(t3);
    var t5 := DropTrailingNumber(t4);
    var t6 := DropPunctuationRuns(t5);
    var j := Join(Words(t6), " ");
    SplitJoinSingleSpaced(t6);
    StripClean(j, Whitespace);
    assert Strip(j) == j;
    WordsAbsent(t6, '`');
    JoinAbsent(Words(t6), " ", '`');
    DropPunctuationRunsNoAdjacent(t5);
    WordsNoAdjacent(t6);
    JoinNoAdjacent(Words(t6));
  }

  predicate IsAsciiLetter(c: char) { IsAsciiLower(c) || IsAsciiUpper(c) }

  /** A plain word of ASCII letters comes through the clean-up unchanged. */
  lemma PlainWordUnchanged(w: string)
    requires w != [] && forall k :: 0 <= k < |w| ==> IsAsciiLetter(w[k])
    ensures StripInlineBold(w) == w
  {
    PlainWordMarkupFree(w);
    LetterEndNoNumber(w);
    PlainWordNoRuns(w);
    PlainWordCollapsed(w);
  }

  lemma PlainWordMarkupFree(w: string)
    requires forall k :: 0 <= k < |w| ==> IsAsciiLetter(w[k])
    ensures UnwrapBold(Delete(Unwrap(NormalizePunctuation(w), '`'), '`')) == w
  {
    NormalizeAbsent(w);
    assert '`' !in w && '*' !in w;
  }

  lemma PlainWordNoRuns(w: string)
    requires forall k :: 0 <= k < |w| ==> IsAsciiLetter(w[k])
    ensures DropPunctuationRuns(w) == w
  {
    assert forall k :: 0 <= k < |w| ==> !IsRunPunct(w[k]);
  }

  lemma PlainWordCollapsed(w: string)
    requires w != [] && forall k :: 0 <= k < |w| ==> IsAsciiLetter(w[k])
    ensures Strip(Join(Words(w), " ")) == w
  {
    assert IsToken(w);
    WordsOfToken(w);
    assert Join([w], " ") == w;
    StripClean(w, Whitespace);
  }

  lemma LetterEndNoNumber(w: string)
    requires w != [] && IsAsciiLetter(w[|w| - 1])
    ensures DropTrailingNumber(w) == w
  {
    assert NumberEnd(w) == |w|;
    assert w[..|w|] == w;
    assert DigitRunStart(w) == |w|;
  }

  // ------------------------------------------------------------------
  // parse_markdown_outline
  // ------------------------------------------------------------------

  datatype Level = H1 | H2 | H3

  function LevelNumber(l: Level): nat {
    match l
    case H1 => 1
    case H2 => 2
    case H3 => 3
  }

  datatype Entry = Entry(level: Level, text: string, page: int)

  /** The level a line announces and its raw text, before the inline clean-up. */
  datatype Heading = Heading(level: Level, raw: string)

  predicate IsSepChar(c: char) {
    c == '.' || c == '-' || c == '*' || c == ',' || c == '=' || c == '"' || c == '\''
  }

  /** re.fullmatch of two or more of `. - * , = " '` followed only by whitespace. */
  predicate IsSeparatorLine(t: string) {
    var n := Span(t, IsSepChar);
    n >= 2 && forall k :: n <= k < |t| ==> IsSpace(t[k])
  }

  /** re.fullmatch(r'_?\*\*(.*?)\*\*_?', s): an optional '_', "**", non-newlines, "**", an optional '_'. */
  predicate IsBoldLine(s: string) {
    var a := if s != [] && s[0] == '_' then 1 else 0;
    var z := if s != [] && s[|s| - 1] == '_' then 1 else 0;
    && a + z + 4 <= |s|
    && s[a] == '*' && s[a + 1] == '*'
    && s[|s| - z - 2] == '*' && s[|s| - z - 1] == '*'
    && forall k :: a + 2 <= k < |s| - z - 2 ==> s[k] != '\n'
  }

  /** The heading a normalised, stripped line announces, if any. */
  function Classify(stripped: string): Option<Heading> {
    if "# " <= stripped then Some(Heading(H1, Strip(stripped[2..])))
    else if "## " <= stripped then Some(Heading(H1, Strip(stripped[3..])))
    else if "### " <= stripped then Some(Heading(H2, Strip(stripped[4..])))
    else if "#### " <= stripped then Some(Heading(H3, Strip(stripped[5..])))
    else if IsBoldLine(stripped) then Some(Heading(H3, stripped))
    else None
  }

  predicate IsHash(c: char) { c == '#' }

  /**
   * A line opening with one to four '#' and a space is a heading of that depth (one and two
   * are H1, three is H2, four is H3) whose text is the stripped rest.
   */
  lemma ClassifyDepth1(s: string)
    requires Span(s, IsHash) == 1 && 1 < |s| && s[1] == ' '
    ensures Classify(s) == Some(Heading(H1, Strip(s[2..])))
  {
    HashPrefix1(s);
  }

  lemma ClassifyDepth2(s: string)
    requires Span(s, IsHash) == 2 && 2 < |s| && s[2] == ' '
    ensures Classify(s) == Some(Heading(H1, Strip(s[3..])))
  {
    HashPrefix1(s);
    HashPrefix2(s);
  }

  lemma ClassifyDepth3(s: string)
    requires Span(s, IsHash) == 3 && 3 < |s| && s[3] == ' '
    ensures Classify(s) == Some(Heading(H2, Strip(s[4..])))
  {
    HashPrefix1(s);
    HashPrefix2(s);
    HashPrefix3(s);
  }

  lemma ClassifyDepth4(s: string)
    requires Span(s, IsHash) == 4 && 4 < |s| && s[4] == ' '
    ensures Classify(s) == Some(Heading(H3, Strip(s[5..])))
  {
    HashPrefix1(s);
    HashPrefix2(s);
    HashPrefix3(s);
    HashPrefix4(s);
  }

  /** Any other line is H3 when it is wholly bold-wrapped and contributes nothing otherwise. */
  lemma ClassifyNotHeading(s: string)
    requires var n := Span(s, IsHash); !(1 <= n <= 4 && n < |s| && s[n] == ' ')
    ensures Classify(s) == if IsBoldLine(s) then Some(Heading(H3, s)) else None
  {
    HashPrefix1(s);
    HashPrefix2(s);
    HashPrefix3(s);
    HashPrefix4(s);
    if Span(s, IsHash) > 0 {
      assert s[0] == '#';
    }
  }

  lemma HashPrefix1(s: string)
    ensures "# " <= s <==> Span(s, IsHash) == 1 && 1 < |s| && s[1] == ' '
  {
    HashPrefix(s, "# ", 1);
  }

  lemma HashPrefix2(s: string)
    ensures "## " <= s <==> Span(s, IsHash) == 2 && 2 < |s| && s[2] == ' '
  {
    HashPrefix(s, "## ", 2);
  }

  lemma HashPrefix3(s: string)
    ensures "### " <= s <==> Span(s, IsHash) == 3 && 3 < |s| && s[3] == ' '
  {
    HashPrefix(s, "### ", 3);
  }

  lemma HashPrefix4(s: string)
    ensures "#### " <= s <==> Span(s, IsHash) == 4 && 4 < |s| && s[4] == ' '
  {
    HashPrefix(s, "#### ", 4);
  }

  /** `m` hashes and a space open `s` exactly when its run of leading hashes has length `m` and a space follows. */
  lemma HashPrefix(s: string, pre: string, m: nat)
    requires |pre| == m + 1 && pre[m] == ' ' && forall k :: 0 <= k < m ==> pre[k] == '#'
    ensures pre <= s <==> Span(s, IsHash) == m && m < |s| && s[m] == ' '
  {
    var n := Span(s, IsHash);
    if pre <= s {
      assert forall k :: 0 <= k < m ==> s[k] == pre[k];
    }
    if n == m && m < |s| && s[m] == ' ' {
      assert forall k :: 0 <= k < m ==> IsHash(s[k]);
      assert s[..m + 1] == pre;
    }
  }

  /** The entry one markdown line contributes, if any. */
  function LineEntry(line: string, page: int): Option<Entry> {
    var ls := Strip(line);
    if IsSeparatorLine(ls) then None
    else
      match Classify(NormalizePunctuation(ls))
      case None => None
      case Some(h) => HeadingEntry(h.level, StripInlineBold(h.raw), page)
  }

  /** The lower-case filter and the emptiness check on a cleaned heading. */
  function HeadingEntry(level: Level, text: string, page: int): (e: Option<Entry>)
    ensures e.Some? <==> text != [] && !StartsWithLower(text)
    ensures e.Some? ==> e.value == Entry(level, text, page + 1)
  {
    if text != [] && StartsWithLower(text) then None
    else if text != [] then Some(Entry(level, text, page + 1))
    else None
  }

  /** The entries of the lines, in line order. */
  function OutlineOf(lines: seq<string>, page: int): seq<Entry>
    decreases |lines|
  {
    if lines == [] then []
    else
      var last := lines[|lines| - 1];
      OutlineOf(lines[..|lines| - 1], page)
        + (match LineEntry(last, page) case Some(e) => [e] case None => [])
  }

  method ParseMarkdownOutline(mdText: string, page: int) returns (outline: seq<Entry>)
    ensures outline == OutlineOf(SplitLines(mdText), page)
  {
    var lines := SplitLines(mdText);
    outline := [];
    for i := 0 to |lines|
      invariant outline == OutlineOf(lines[..i], page)
    {
      OutlineOfNext(lines, i, page);
      var line := lines[i];
      if IsSeparatorLine(Strip(line)) {
        continue;
      }
      var stripped := NormalizePunctuation(Strip(line));
      var h := Classify(stripped);
      if h.None? {
        continue;
      }
      var text := StripInlineBold(h.value.raw);
      if text != [] && StartsWithLower(text) {
        continue;
      }
      if text != [] {
        outline := outline + [Entry(h.value.level, text, page + 1)];
      }
    }
    TakeAll(lines);
  }

  lemma OutlineOfNext(lines: seq<string>, i: nat, page: int)
    requires i < |lines|
    ensures OutlineOf(lines[..i + 1], page)
      == OutlineOf(lines[..i], page) + match LineEntry(lines[i], page) case Some(e) => [e] case None => []
  {
    TakeNext(lines, i);
  }

  /** Every entry has clean, non-empty text not starting with a-z, and the page number plus one. */
  predicate ValidEntry(e: Entry, pageNo: int) {
    && e.text != []
    && !StartsWithLower(e.text)
    && SingleSpaced(e.text)
    && '`' !in e.text
    && NoAdjacentRunPunct(e.text)
    && e.page == pageNo
  }

  lemma LineEntryValid(line: string, page: int)
    ensures LineEntry(line, page).Some? ==> ValidEntry(LineEntry(line, page).value, page + 1)
  {
    var h := Classify(NormalizePunctuation(Strip(line)));
    if h.Some? {
      StripInlineBoldClean(h.value.raw);
    }
  }

  lemma {:induction false} OutlineValid(lines: seq<string>, page: int)
    ensures forall k :: 0 <= k < |OutlineOf(lines, page)| ==> ValidEntry(OutlineOf(lines, page)[k], page + 1)
    decreases |lines|
  {
    if lines != [] {
      OutlineValid(lines[..|lines| - 1], page);
      LineEntryValid(lines[|lines| - 1], page);
    }
  }

  /** The outline of consecutive blocks of lines is the concatenation of their outlines. */
  lemma {:induction false} OutlineAppend(a: seq<string>, b: seq<string>, page: int)
    ensures OutlineOf(a + b, page) == OutlineOf(a, page) + OutlineOf(b, page)
    decreases |b|
  {
    if b == [] {
      assert a + b == a;
    } else {
      var b0 := b[..|b| - 1];
      OutlineAppend(a, b0, page);
      DropLastAppend(a, b);
      var x := match LineEntry(b[|b| - 1], page) case Some(e) => [e] case None => [];
      assert OutlineOf(a + b, page) == OutlineOf(a + b0, page) + x;
      AppendAssoc(OutlineOf(a, page), OutlineOf(b0, page), x);
    }
  }

  /** A line whose stripped form is a separator contributes nothing wherever it stands. */
  lemma SeparatorSkipped(a: seq<string>, line: string, b: seq<string>, page: int)
    requires IsSeparatorLine(Strip(line))
    ensures OutlineOf(a + [line] + b, page) == OutlineOf(a + b, page)
  {
    OutlineAppend(a + [line], b, page);
    OutlineAppend(a, [line], page);
    OutlineAppend(a, b, page);
    SeparatorLineEmpty(line, page);
    AppendEmptyMiddle(OutlineOf(a, page), OutlineOf([line], page), OutlineOf(b, page));
  }

  lemma SeparatorLineEmpty(line: string, page: int)
    requires IsSeparatorLine(Strip(line))
    ensures OutlineOf([line], page) == []
  {
    assert [line][..0] == [];
  }

  // ------------------------------------------------------------------
  // extract_outline_and_title
  // ------------------------------------------------------------------

  /** A table-of-contents item: a list or tuple of at least two fields, or anything else. */
  datatype TocItem = Row(level: int, title: string) | Malformed

  /** A page record; either key may be missing. */
  datatype Page = Page(text: Option<string>, tocItems: Option<seq<TocItem>>)

  function PageLines(p: Page): seq<string> {
    SplitLines(p.text.GetOr([]))
  }

  function PageToc(p: Page): seq<TocItem> {
    p.tocItems.GetOr([])
  }

  /** The title a line offers: the cleaned text after "# ", unless it starts with a-z. */
  function TitleCandidate(line: string): Option<string> {
    var stripped := NormalizePunctuation(Strip(line));
    if "# " <= stripped then
      var candidate := StripInlineBold(Strip(stripped[2..]));
      if !StartsWithLower(candidate) then Some(candidate) else None
    else None
  }

  /** What each line offers, in order. */
  function Candidates(lines: seq<string>): seq<Option<string>> {
    Map(TitleCandidate, lines)
  }

  lemma CandidatesIndex(lines: seq<string>)
    ensures |Candidates(lines)| == |lines|
    ensures forall j :: 0 <= j < |lines| ==> Candidates(lines)[j] == TitleCandidate(lines[j])
  {
    forall j | 0 <= j < |lines| ensures Candidates(lines)[j] == TitleCandidate(lines[j]) {
      MapIndex(TitleCandidate, lines, j);
    }
  }

  /** The first offer that is present. */
  function FirstSome(cs: seq<Option<string>>): Option<string>
    decreases |cs|
  {
    if cs == [] then None
    else if cs[0].Some? then cs[0]
    else FirstSome(cs[1..])
  }

  /** The candidate of the first line that offers one. */
  function FirstCandidate(lines: seq<string>): Option<string> {
    FirstSome(Candidates(lines))
  }

  lemma {:induction false} FirstSomeNone(cs: seq<Option<string>>)
    ensures FirstSome(cs).None? <==> forall j :: 0 <= j < |cs| ==> cs[j].None?
    decreases |cs|
  {
    if cs != [] {
      FirstSomeNone(cs[1..]);
      assert forall j :: 1 <= j < |cs| ==> cs[j] == cs[1..][j - 1];
    }
  }

  lemma {:induction false} FirstSomeAt(cs: seq<Option<string>>, i: nat)
    requires i < |cs| && cs[i].Some?
    requires forall j :: 0 <= j < i ==> cs[j].None?
    ensures FirstSome(cs) == cs[i]
    decreases i
  {
    if i > 0 {
      assert forall j :: 0 <= j < i - 1 ==> cs[1..][j] == cs[j + 1];
      FirstSomeAt(cs[1..], i - 1);
    }
  }

  lemma {:induction false} FirstSomeAppend(a: seq<Option<string>>, b: seq<Option<string>>)
    ensures FirstSome(a + b) == if FirstSome(a).Some? then FirstSome(a) else FirstSome(b)
    decreases |a|
  {
    if a == [] {
      assert a + b == b;
    } else {
      ConsAppend(a, b);
      FirstSomeAppend(a[1..], b);
    }
  }

  lemma CandidatesAppend(a: seq<string>, b: seq<string>)
    ensures Candidates(a + b) == Candidates(a) + Candidates(b)
  {
    MapAppend(TitleCandidate, a, b);
  }

  lemma FirstSomeSingleton(x: Option<string>)
    ensures FirstSome([x]) == x
  {
    assert [x][1..] == [];
  }

  /** There is no first candidate exactly when no line offers one. */
  lemma FirstCandidateNone(lines: seq<string>)
    ensures FirstCandidate(lines).None? <==> forall j :: 0 <= j < |lines| ==> TitleCandidate(lines[j]).None?
  {
    FirstSomeNone(Candidates(lines));
    CandidatesIndex(lines);
  }

  /** The candidate of the first line that offers one is the first candidate. */
  lemma FirstCandidateAt(lines: seq<string>, i: nat)
    requires i < |lines| && TitleCandidate(lines[i]).Some?
    requires forall j :: 0 <= j < i ==> TitleCandidate(lines[j]).None?
    ensures FirstCandidate(lines) == TitleCandidate(lines[i])
  {
    CandidatesIndex(lines);
    FirstSomeAt(Candidates(lines), i);
  }

  lemma FirstCandidateAppend(a: seq<string>, b: seq<string>)
    ensures FirstCandidate(a + b) == if FirstCandidate(a).Some? then FirstCandidate(a) else FirstCandidate(b)
  {
    CandidatesAppend(a, b);
    FirstSomeAppend(Candidates(a), Candidates(b));
  }

  /** The first candidate of the first page that has one. */
  function PageSearch(pages: seq<Page>): Option<string>
    decreases |pages|
  {
    if pages == [] then None
    else if FirstCandidate(PageLines(pages[0])).Some? then FirstCandidate(PageLines(pages[0]))
    else PageSearch(pages[1..])
  }

  /** The title: the first candidate across the pages, or "Untitled" when there is none. */
  function TitleOf(pages: seq<Page>): string {
    PageSearch(pages).GetOr("Untitled")
  }

  /** All lines of all pages, in order. */
  function AllLines(pages: seq<Page>): seq<string>
    decreases |pages|
  {
    if pages == [] then [] else PageLines(pages[0]) + AllLines(pages[1..])
  }

  /** The title is the first candidate of the document read as one run of lines. */
  lemma {:induction false} TitleOfAllLines(pages: seq<Page>)
    ensures TitleOf(pages) == FirstCandidate(AllLines(pages)).GetOr("Untitled")
    ensures PageSearch(pages) == FirstCandidate(AllLines(pages))
    decreases |pages|
  {
    if pages != [] {
      TitleOfAllLines(pages[1..]);
      FirstCandidateAppend(PageLines(pages[0]), AllLines(pages[1..]));
    }
  }

  /**
   * The loop as written: a candidate is stored in `title`, but the outer loop stops only when
   * `title != 'Untitled'`, so a first candidate that is literally "Untitled" lets later pages override it.
   */
  function TitleAsWritten(pages: seq<Page>): string
    decreases |pages|
  {
    if pages == [] then "Untitled"
    else
      match FirstCandidate(PageLines(pages[0]))
      case Some(c) => if c != "Untitled" then c else TitleAsWritten(pages[1..])
      case None => TitleAsWritten(pages[1..])
  }

  /** The two agree unless some page's first candidate is literally "Untitled". */
  lemma {:induction false} TitleAsWrittenAgrees(pages: seq<Page>)
    requires forall i :: 0 <= i < |pages| ==> FirstCandidate(PageLines(pages[i])) != Some("Untitled")
    ensures TitleAsWritten(pages) == TitleOf(pages)
    decreases |pages|
  {
    if pages != [] {
      TitleAsWrittenAgrees(pages[1..]);
    }
  }

  /** A one-line page whose line is "# " followed by a capitalised ASCII word offers that word. */
  lemma HeadingLineCandidate(line: string, w: string)
    requires w != [] && IsAsciiUpper(w[0]) && forall k :: 0 <= k < |w| ==> IsAsciiLetter(w[k])
    requires line == "# " + w
    ensures FirstCandidate(PageLines(Page(Some(line), None))) == Some(w)
  {
    HeadingLinePlain(line, w);
    SplitLinesOfLine(line);
    SingleLineCandidate(line);
    HeadingWordCandidate(line, w);
  }

  lemma HeadingLinePlain(line: string, w: string)
    requires forall k :: 0 <= k < |w| ==> IsAsciiLetter(w[k])
    requires line == "# " + w
    ensures line != [] && IsLine(line)
    ensures forall c :: c in line ==> !IsUnicodePunctuation(c)
  {
    assert forall k :: 2 <= k < |line| ==> line[k] == w[k - 2];
  }

  lemma SingleLineCandidate(line: string)
    ensures FirstCandidate([line]) == TitleCandidate(line)
  {
    assert [line][1..] == [];
    assert Candidates([line]) == [TitleCandidate(line)];
    FirstSomeSingleton(TitleCandidate(line));
  }

  lemma HeadingWordCandidate(line: string, w: string)
    requires w != [] && IsAsciiUpper(w[0]) && forall k :: 0 <= k < |w| ==> IsAsciiLetter(w[k])
    requires line == "# " + w
    requires forall c :: c in line ==> !IsUnicodePunctuation(c)
    ensures TitleCandidate(line) == Some(w)
  {
    HeadingLineUnchanged(line, w);
    assert line[2..] == w;
    PlainWordTitle(w);
  }

  lemma HeadingLineUnchanged(line: string, w: string)
    requires w != [] && forall k :: 0 <= k < |w| ==> IsAsciiLetter(w[k])
    requires line == "# " + w
    requires forall c :: c in line ==> !IsUnicodePunctuation(c)
    ensures NormalizePunctuation(Strip(line)) == line
  {
    StripClean(line, Whitespace);
    NormalizeAbsent(line);
  }

  lemma PlainWordTitle(w: string)
    requires w != [] && IsAsciiUpper(w[0]) && forall k :: 0 <= k < |w| ==> IsAsciiLetter(w[k])
    ensures StripInlineBold(Strip(w)) == w && !StartsWithLower(w)
  {
    StripClean(w, Whitespace);
    PlainWordUnchanged(w);
  }

  /** When the first page offers "Untitled" and the second offers `w`, the loop as written reports `w`. */
  lemma SentinelOverridden(a: Page, b: Page, w: string)
    requires FirstCandidate(PageLines(a)) == Some("Untitled")
    requires FirstCandidate(PageLines(b)) == Some(w) && w != "Untitled"
    ensures TitleAsWritten([a, b]) == w && TitleOf([a, b]) == "Untitled"
  {
    WrittenSkipsSentinel([a, b]);
    WrittenSinglePage(b, w);
    assert [a, b][1..] == [b];
  }

  lemma WrittenSkipsSentinel(pages: seq<Page>)
    requires pages != [] && FirstCandidate(PageLines(pages[0])) == Some("Untitled")
    ensures TitleAsWritten(pages) == TitleAsWritten(pages[1..])
  {
  }

  lemma WrittenSinglePage(b: Page, w: string)
    requires FirstCandidate(PageLines(b)) == Some(w) && w != "Untitled"
    ensures TitleAsWritten([b]) == w
  {
    assert [b][0] == b;
  }

  lemma UntitledHeading(p: Page)
    requires p == Page(Some("# Untitled"), None)
    ensures FirstCandidate(PageLines(p)) == Some("Untitled")
  {
    HeadingLineCandidate("# Untitled", "Untitled");
  }

  lemma BarHeading(p: Page)
    requires p == Page(Some("# Bar"), None)
    ensures FirstCandidate(PageLines(p)) == Some("Bar")
  {
    HeadingLineCandidate("# Bar", "Bar");
  }

  /**
   * A document whose first page's heading is "# Untitled" and whose second page's heading is
   * "# Bar": the loop as written reports "Bar", the first heading gives "Untitled".
   */
  lemma TitleSentinelCounterexample(a: Page, b: Page)
    requires a == Page(Some("# Untitled"), None) && b == Page(Some("# Bar"), None)
    ensures TitleAsWritten([a, b]) == "Bar" && TitleOf([a, b]) == "Untitled"
  {
    UntitledHeading(a);
    BarHeading(b);
    SentinelOverridden(a, b, "Bar");
  }

  /** f'H{lvl if 1 <= lvl <= 3 else 3}' */
  function TocLevel(lvl: int): (l: Level)
    ensures LevelNumber(l) == if 1 <= lvl <= 3 then lvl else 3
  {
    if lvl == 1 then H1 else if lvl == 2 then H2 else H3
  }

  predicate HasText(items: seq<Entry>, t: string) {
    exists k :: 0 <= k < |items| && items[k].text == t
  }

  /** One step of the TOC loop: a well-formed row is appended unless its text starts with a-z or is already listed. */
  function AddTocItem(items: seq<Entry>, item: TocItem, pageNo: int): seq<Entry> {
    match item
    case Malformed => items
    case Row(lvl, title) =>
      var txt := StripInlineBold(title);
      if !StartsWithLower(txt) && !HasText(items, txt) then items + [Entry(TocLevel(lvl), txt, pageNo)]
      else items
  }

  function MergedToc(items: seq<Entry>, toc: seq<TocItem>, pageNo: int): seq<Entry>
    decreases |toc|
  {
    if toc == [] then items
    else AddTocItem(MergedToc(items, toc[..|toc| - 1], pageNo), toc[|toc| - 1], pageNo)
  }

  /** `e` is the entry some row of `toc` stands for. */
  predicate FromRow(e: Entry, toc: seq<TocItem>, pageNo: int) {
    exists j :: 0 <= j < |toc| && toc[j].Row? && e == RowEntry(toc[j], pageNo)
  }

  /** Cleaned text of a row that the merge would accept. */
  predicate AcceptableRow(item: TocItem) {
    item.Row? && !StartsWithLower(StripInlineBold(item.title))
  }

  /** The row's entry: its clamped level, its cleaned text and the page number. */
  function RowEntry(item: TocItem, pageNo: int): Entry
    requires item.Row?
  {
    Entry(TocLevel(item.level), StripInlineBold(item.title), pageNo)
  }

  /** One TOC step either keeps the list or appends the row's entry, and it appends exactly when the row is acceptable and new. */
  lemma AddTocItemCases(prev: seq<Entry>, item: TocItem, pageNo: int)
    ensures var m := AddTocItem(prev, item, pageNo);
      if AcceptableRow(item) && !HasText(prev, StripInlineBold(item.title)) then m == prev + [RowEntry(item, pageNo)]
      else m == prev
  {
  }

  lemma MergedTocUnfold(items: seq<Entry>, toc: seq<TocItem>, pageNo: int)
    requires toc != []
    ensures MergedToc(items, toc, pageNo) == AddTocItem(MergedToc(items, toc[..|toc| - 1], pageNo), toc[|toc| - 1], pageNo)
  {
  }

  /** One more TOC item merged. */
  lemma MergedTocStep(items: seq<Entry>, toc: seq<TocItem>, pageNo: int, k: nat)
    requires k < |toc|
    ensures MergedToc(items, toc[..k + 1], pageNo) == AddTocItem(MergedToc(items, toc[..k], pageNo), toc[k], pageNo)
  {
    TakeNext(toc, k);
    MergedTocUnfold(items, toc[..k + 1], pageNo);
  }

  /** The last step of the merge. */
  lemma MergedTocLast(items: seq<Entry>, toc: seq<TocItem>, pageNo: int)
    requires toc != []
    ensures var prev := MergedToc(items, toc[..|toc| - 1], pageNo);
      var item := toc[|toc| - 1];
      var m := MergedToc(items, toc, pageNo);
      if AcceptableRow(item) && !HasText(prev, StripInlineBold(item.title)) then m == prev + [RowEntry(item, pageNo)]
      else m == prev
  {
    AddTocItemCases(MergedToc(items, toc[..|toc| - 1], pageNo), toc[|toc| - 1], pageNo);
  }

  /** Merging keeps the page's own entries first and in order. */
  lemma {:induction false} MergedTocPrefix(items: seq<Entry>, toc: seq<TocItem>, pageNo: int)
    ensures items <= MergedToc(items, toc, pageNo)
    decreases |toc|
  {
    if toc != [] {
      MergedTocPrefix(items, toc[..|toc| - 1], pageNo);
      MergedTocLast(items, toc, pageNo);
    }
  }

  /** Every added entry carries the page number and a text that does not start with a-z. */
  lemma {:induction false} MergedTocAdded(items: seq<Entry>, toc: seq<TocItem>, pageNo: int)
    ensures var m := MergedToc(items, toc, pageNo);
      forall k :: |items| <= k < |m| ==> m[k].page == pageNo && !StartsWithLower(m[k].text)
    decreases |toc|
  {
    if toc != [] {
      var prev := MergedToc(items, toc[..|toc| - 1], pageNo);
      MergedTocAdded(items, toc[..|toc| - 1], pageNo);
      MergedTocLast(items, toc, pageNo);
      var m := MergedToc(items, toc, pageNo);
      forall k | |items| <= k < |m| ensures m[k].page == pageNo && !StartsWithLower(m[k].text) {
        if k < |prev| {
          assert m[k] == prev[k];
        }
      }
    }
  }

  /** No added entry repeats the text of any entry before it. */
  lemma {:induction false} MergedTocDistinct(items: seq<Entry>, toc: seq<TocItem>, pageNo: int)
    ensures var m := MergedToc(items, toc, pageNo);
      forall a, b :: 0 <= a < b < |m| && |items| <= b ==> m[a].text != m[b].text
    decreases |toc|
  {
    if toc != [] {
      var prev := MergedToc(items, toc[..|toc| - 1], pageNo);
      MergedTocDistinct(items, toc[..|toc| - 1], pageNo);
      MergedTocPrefix(items, toc[..|toc| - 1], pageNo);
      MergedTocLast(items, toc, pageNo);
      var m := MergedToc(items, toc, pageNo);
      forall a, b | 0 <= a < b < |m| && |items| <= b ensures m[a].text != m[b].text {
        if b < |prev| {
          assert m[a] == prev[a] && m[b] == prev[b];
        } else {
          assert m[a] == prev[a];
        }
      }
    }
  }

  /** Every added entry is the entry of some row. */
  lemma MergedTocFromRow(items: seq<Entry>, toc: seq<TocItem>, pageNo: int)
    ensures var m := MergedToc(items, toc, pageNo);
      forall k :: |items| <= k < |m| ==> FromRow(m[k], toc, pageNo)
  {
    forall k | |items| <= k < |MergedToc(items, toc, pageNo)|
      ensures FromRow(MergedToc(items, toc, pageNo)[k], toc, pageNo)
    {
      MergedEntryFromRow(items, toc, pageNo, k);
    }
  }

  lemma {:induction false} MergedEntryFromRow(items: seq<Entry>, toc: seq<TocItem>, pageNo: int, k: nat)
    requires |items| <= k < |MergedToc(items, toc, pageNo)|
    ensures FromRow(MergedToc(items, toc, pageNo)[k], toc, pageNo)
    decreases |toc|
  {
    var toc0 := toc[..|toc| - 1];
    var prev := MergedToc(items, toc0, pageNo);
    MergedTocUnfold(items, toc, pageNo);
    if k < |prev| {
      MergedEntryFromRow(items, toc0, pageNo, k);
      EarlierRowEntry(items, toc, pageNo, k);
    } else {
      var merged := AddTocItem(prev, toc[|toc| - 1], pageNo);
      assert MergedToc(items, toc, pageNo) == merged;
      LastRowEntry(prev, toc, pageNo);
      assert k == |prev|;
      assert FromRow(merged[k], toc, pageNo);
    }
  }

  lemma EarlierRowEntry(items: seq<Entry>, toc: seq<TocItem>, pageNo: int, k: nat)
    requires toc != []
    requires k < |MergedToc(items, toc[..|toc| - 1], pageNo)|
    requires FromRow(MergedToc(items, toc[..|toc| - 1], pageNo)[k], toc[..|toc| - 1], pageNo)
    ensures k < |MergedToc(items, toc, pageNo)|
    ensures FromRow(MergedToc(items, toc, pageNo)[k], toc, pageNo)
  {
    var prev := MergedToc(items, toc[..|toc| - 1], pageNo);
    MergedTocUnfold(items, toc, pageNo);
    AddTocItemGrows(prev, toc[|toc| - 1], pageNo);
    PrefixIndex(prev, MergedToc(items, toc, pageNo), k);
    FromRowExtend(prev[k], toc, pageNo);
  }

  /** An entry that stands for a row of the TOC without its last item stands for a row of the TOC. */
  lemma FromRowExtend(e: Entry, toc: seq<TocItem>, pageNo: int)
    requires toc != [] && FromRow(e, toc[..|toc| - 1], pageNo)
    ensures FromRow(e, toc, pageNo)
  {
    var toc0 := toc[..|toc| - 1];
    var j :| 0 <= j < |toc0| && toc0[j].Row? && e == RowEntry(toc0[j], pageNo);
    var item := toc0[j];
    assert toc[j] == item;
    assert 0 <= j < |toc| && toc[j].Row? && e == RowEntry(toc[j], pageNo);
  }

  lemma LastRowEntry(prev: seq<Entry>, toc: seq<TocItem>, pageNo: int)
    requires toc != []
    requires |prev| < |AddTocItem(prev, toc[|toc| - 1], pageNo)|
    ensures |AddTocItem(prev, toc[|toc| - 1], pageNo)| == |prev| + 1
    ensures FromRow(AddTocItem(prev, toc[|toc| - 1], pageNo)[|prev|], toc, pageNo)
  {
    var item := toc[|toc| - 1];
    AddTocItemCases(prev, item, pageNo);
    assert AddTocItem(prev, item, pageNo)[|prev|] == RowEntry(item, pageNo);
  }

  /** Every acceptable row's text is listed after merging. */
  lemma MergedTocComplete(items: seq<Entry>, toc: seq<TocItem>, pageNo: int)
    ensures var m := MergedToc(items, toc, pageNo);
      forall j :: 0 <= j < |toc| && AcceptableRow(toc[j]) ==> HasText(m, StripInlineBold(toc[j].title))
  {
    forall j | 0 <= j < |toc| && AcceptableRow(toc[j])
      ensures HasText(MergedToc(items, toc, pageNo), StripInlineBold(toc[j].title))
    {
      MergedTocListsRow(items, toc, pageNo, j);
    }
  }

  lemma {:induction false} MergedTocListsRow(items: seq<Entry>, toc: seq<TocItem>, pageNo: int, j: nat)
    requires j < |toc| && AcceptableRow(toc[j])
    ensures HasText(MergedToc(items, toc, pageNo), StripInlineBold(toc[j].title))
    decreases |toc|
  {
    if j == |toc| - 1 {
      MergedTocUnfold(items, toc, pageNo);
      LastRowListed(MergedToc(items, toc[..|toc| - 1], pageNo), toc[j], pageNo);
    } else {
      var toc0 := toc[..|toc| - 1];
      assert toc0[j] == toc[j];
      MergedTocListsRow(items, toc0, pageNo, j);
      StaysListed(items, toc, pageNo, StripInlineBold(toc[j].title));
    }
  }

  /** A text listed before the last step stays listed. */
  lemma StaysListed(items: seq<Entry>, toc: seq<TocItem>, pageNo: int, t: string)
    requires toc != [] && HasText(MergedToc(items, toc[..|toc| - 1], pageNo), t)
    ensures HasText(MergedToc(items, toc, pageNo), t)
  {
    MergedTocUnfold(items, toc, pageNo);
    var prev := MergedToc(items, toc[..|toc| - 1], pageNo);
    AddTocItemGrows(prev, toc[|toc| - 1], pageNo);
    HasTextGrows(prev, MergedToc(items, toc, pageNo), t);
  }

  lemma AddTocItemGrows(prev: seq<Entry>, item: TocItem, pageNo: int)
    ensures prev <= AddTocItem(prev, item, pageNo)
  {
  }

  lemma HasTextGrows(prev: seq<Entry>, m: seq<Entry>, t: string)
    requires prev <= m && HasText(prev, t)
    ensures HasText(m, t)
  {
    var k :| 0 <= k < |prev| && prev[k].text == t;
    assert m[k] == prev[k];
  }

  lemma LastRowListed(prev: seq<Entry>, item: TocItem, pageNo: int)
    requires AcceptableRow(item)
    ensures HasText(AddTocItem(prev, item, pageNo), StripInlineBold(item.title))
  {
    AddTocItemCases(prev, item, pageNo);
    var m := AddTocItem(prev, item, pageNo);
    if m != prev {
      assert m[|prev|] == RowEntry(item, pageNo);
    }
  }

  /** What one page contributes: its parsed entries, then its accepted TOC rows, all with page i + 1. */
  function PageEntries(p: Page, i: int): seq<Entry> {
    MergedToc(OutlineOf(PageLines(p), i), PageToc(p), i + 1)
  }

  function OutlineOfPages(pages: seq<Page>): seq<Entry>
    decreases |pages|
  {
    if pages == [] then []
    else OutlineOfPages(pages[..|pages| - 1]) + PageEntries(pages[|pages| - 1], |pages| - 1)
  }

  lemma PageEntriesPage(p: Page, i: int)
    ensures PagesWithin(PageEntries(p, i), i + 1, i + 1)
  {
    var base := OutlineOf(PageLines(p), i);
    OutlineValid(PageLines(p), i);
    MergedTocPrefix(base, PageToc(p), i + 1);
    MergedTocAdded(base, PageToc(p), i + 1);
    var m := PageEntries(p, i);
    forall k | 0 <= k < |m| ensures m[k].page == i + 1 {
      if k < |base| {
        assert m[k] == base[k];
      }
    }
  }

  predicate PagesWithin(o: seq<Entry>, lo: int, hi: int) {
    forall k :: 0 <= k < |o| ==> lo <= o[k].page <= hi
  }

  predicate PagesSorted(o: seq<Entry>) {
    forall a, b :: 0 <= a < b < |o| ==> o[a].page <= o[b].page
  }

  /** Appending entries of page n to a sorted run of pages 1..n-1 gives a sorted run of pages 1..n. */
  lemma AppendPage(prev: seq<Entry>, last: seq<Entry>, n: int)
    requires PagesWithin(prev, 1, n - 1) && PagesSorted(prev)
    requires 1 <= n && PagesWithin(last, n, n)
    ensures PagesWithin(prev + last, 1, n) && PagesSorted(prev + last)
  {
    var o := prev + last;
    forall k | 0 <= k < |o| ensures 1 <= o[k].page <= n {
      if k >= |prev| {
        assert o[k] == last[k - |prev|];
      } else {
        assert o[k] == prev[k];
      }
    }
    forall a, b | 0 <= a < b < |o| ensures o[a].page <= o[b].page {
      if b >= |prev| {
        assert o[b] == last[b - |prev|];
        if a >= |prev| {
          assert o[a] == last[a - |prev|];
        } else {
          assert o[a] == prev[a];
        }
      } else {
        assert o[a] == prev[a] && o[b] == prev[b];
      }
    }
  }

  /** Page numbers run from 1 to the number of pages and never decrease along the outline. */
  lemma {:induction false} OutlinePagesOrdered(pages: seq<Page>)
    ensures PagesWithin(OutlineOfPages(pages), 1, |pages|)
    ensures PagesSorted(OutlineOfPages(pages))
    decreases |pages|
  {
    if pages != [] {
      var n := |pages|;
      OutlinePagesOrdered(pages[..n - 1]);
      PageEntriesPage(pages[n - 1], n - 1);
      AppendPage(OutlineOfPages(pages[..n - 1]), PageEntries(pages[n - 1], n - 1), n);
    }
  }

  /** The inner title loop over one page's lines. */
  method PageTitle(lines: seq<string>) returns (candidate: Option<string>)
    ensures candidate == FirstCandidate(lines)
  {
    var l := 0;
    while l < |lines|
      invariant 0 <= l <= |lines|
      invariant FirstCandidate(lines) == FirstSome(Candidates(lines)[l..])
    {
      CandidatesIndex(lines);
      DropNext(Candidates(lines), l);
      var stripped := NormalizePunctuation(Strip(lines[l]));
      if "# " <= stripped {
        var c := StripInlineBold(Strip(stripped[2..]));
        if !StartsWithLower(c) {
          return Some(c);
        }
      }
      l := l + 1;
    }
    return None;
  }

  /** The outer title loop: stops at the first page that offers a candidate. */
  method FindTitle(pages: seq<Page>) returns (title: string)
    ensures title == TitleOf(pages)
  {
    var p := 0;
    while p < |pages|
      invariant 0 <= p <= |pages|
      invariant PageSearch(pages) == PageSearch(pages[p..])
    {
      DropNext(pages, p);
      var c := PageTitle(PageLines(pages[p]));
      if c.Some? {
        return c.value;
      }
      p := p + 1;
    }
    return "Untitled";
  }

  /** The TOC loop of one page: appends each acceptable new row to the page's entries. */
  method MergeTocItems(items: seq<Entry>, toc: seq<TocItem>, pageNo: int) returns (merged: seq<Entry>)
    ensures merged == MergedToc(items, toc, pageNo)
  {
    merged := items;
    for k := 0 to |toc|
      invariant merged == MergedToc(items, toc[..k], pageNo)
    {
      MergedTocStep(items, toc, pageNo, k);
      match toc[k]
      case Malformed =>
      case Row(lvl, t) =>
        var txt := StripInlineBold(t);
        if !StartsWithLower(txt) && !HasText(merged, txt) {
          merged := merged + [Entry(TocLevel(lvl), txt, pageNo)];
        }
    }
    TakeAll(toc);
  }

  method ExtractOutlineAndTitle(pages: seq<Page>) returns (title: string, outline: seq<Entry>)
    ensures title == TitleOf(pages)
    ensures outline == OutlineOfPages(pages)
  {
    title := FindTitle(pages);
    outline := [];
    for i := 0 to |pages|
      invariant outline == OutlineOfPages(pages[..i])
    {
      TakeNext(pages, i);
      var items := ParseMarkdownOutline(pages[i].text.GetOr([]), i);
      items := MergeTocItems(items, PageToc(pages[i]), i + 1);
      outline := outline + items;
    }
    TakeAll(pages);
  }
}
