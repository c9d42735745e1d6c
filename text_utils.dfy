/**
 * clean_text: the fixed pipeline of rewrites that turns a retrieved chunk into a display
 * snippet. Each rewrite is a stage function; the lemmas follow single characters and
 * patterns through the stages.
 */
module TextUtils {
  import opened PyStrings

  // ------------------------------------------------------------------
  // Ligatures
  // ------------------------------------------------------------------

  /** The ligature table, in insertion order. */
  const LigatureTable: seq<(char, string)> := [
    ('\U{FB00}', "ff"), ('\U{FB01}', "fi"), ('\U{FB02}', "fl"),
    ('\U{FB03}', "ffi"), ('\U{FB04}', "ffl"), ('\U{FB05}', "ft"), ('\U{FB06}', "st")
  ]

  predicate IsLigature(c: char) {
    '\U{FB00}' <= c <= '\U{FB06}'
  }

  function ReplaceLigatures(s: string): string {
    ReplaceEach(s, LigatureTable)
  }

  /** The keys are exactly U+FB00..U+FB06, and the expansions are plain ASCII letters. */
  lemma LigatureTableShape()
    ensures forall c :: IsLigature(c) ==> exists i :: 0 <= i < |LigatureTable| && LigatureTable[i].0 == c
    ensures forall i, c :: 0 <= i < |LigatureTable| && c in LigatureTable[i].1 ==> IsAsciiLower(c)
    ensures forall i :: 0 <= i < |LigatureTable| ==> IsLigature(LigatureTable[i].0)
  {
    forall c | IsLigature(c)
      ensures exists i :: 0 <= i < |LigatureTable| && LigatureTable[i].0 == c
    {
      var i := c as int - 0xFB00;
      assert LigatureTable[i].0 == c;
    }
  }

  /** No ligature survives the table. */
  lemma LigaturesRemoved(s: string)
    ensures forall c :: c in ReplaceLigatures(s) ==> !IsLigature(c)
  {
    LigatureTableShape();
    forall i | 0 <= i < |LigatureTable| ensures LigatureTable[i].0 !in ReplaceLigatures(s) {
      ReplaceEachRemoves(s, LigatureTable, i);
    }
  }

  /** Text without ligatures passes unchanged. */
  lemma LigaturesAbsent(s: string)
    requires forall c :: c in s ==> !IsLigature(c)
    ensures ReplaceLigatures(s) == s
  {
    LigatureTableShape();
    ReplaceEachAbsent(s, LigatureTable);
  }

  /** The expansions only add lowercase letters. */
  lemma LigaturesKeepAbsent(s: string, c: char)
    requires c !in s && !IsAsciiLower(c)
    ensures c !in ReplaceLigatures(s)
  {
    LigatureTableShape();
    ReplaceEachKeeps(s, LigatureTable, c);
  }

  // ------------------------------------------------------------------
  // Bullets
  // ------------------------------------------------------------------

  /** The six characters backslash, 'u', '2', '0', '2', '2'. */
  const EscapedBullet: string := "\\u2022"

  /** U+2022 encoded in UTF-8 and decoded as Windows-1252. */
  const MojibakeBullet: string := "\U{E2}\U{20AC}\U{A2}"

  const DashDot: string := "-."

  function FixBullets(s: string): string {
    Replace(Replace(Replace(s, EscapedBullet, "-"), MojibakeBullet, "-"), DashDot, "-")
  }

  /** Neither bullet spelling is left. */
  lemma FixBulletsRemoves(s: string)
    ensures !Contains(FixBullets(s), EscapedBullet) && !Contains(FixBullets(s), MojibakeBullet)
  {
    var a := Replace(s, EscapedBullet, "-");
    var b := Replace(a, MojibakeBullet, "-");
    ReplaceNoOccurrence(s, EscapedBullet, "-", EscapedBullet);
    ReplaceNoOccurrence(a, MojibakeBullet, "-", EscapedBullet);
    ReplaceNoOccurrence(a, MojibakeBullet, "-", MojibakeBullet);
    ReplaceNoOccurrence(b, DashDot, "-", EscapedBullet);
    ReplaceNoOccurrence(b, DashDot, "-", MojibakeBullet);
  }

  /** Text holding none of the three patterns passes unchanged. */
  lemma FixBulletsAbsent(s: string)
    requires !Contains(s, EscapedBullet) && !Contains(s, MojibakeBullet) && !Contains(s, DashDot)
    ensures FixBullets(s) == s
  {
    ReplaceAbsent(s, EscapedBullet, "-");
    ReplaceAbsent(s, MojibakeBullet, "-");
    ReplaceAbsent(s, DashDot, "-");
  }

  /** Only '-' is ever added. */
  lemma FixBulletsKeepAbsent(s: string, c: char)
    requires c !in s && c != '-'
    ensures c !in FixBullets(s)
  {
  }

  // ------------------------------------------------------------------
  // Quotes
  // ------------------------------------------------------------------

  const QuoteTable: seq<(char, string)> := [('\U{2019}', "'"), ('\U{201C}', "\""), ('\U{201D}', "\"")]

  predicate IsCurlyQuote(c: char) {
    c == '\U{2019}' || c == '\U{201C}' || c == '\U{201D}'
  }

  function FixQuotes(s: string): string {
    ReplaceEach(s, QuoteTable)
  }

  lemma QuoteTableShape()
    ensures forall c :: IsCurlyQuote(c) ==> exists i :: 0 <= i < |QuoteTable| && QuoteTable[i].0 == c
    ensures forall i, c :: 0 <= i < |QuoteTable| && c in QuoteTable[i].1 ==> c == '\'' || c == '"'
    ensures forall i :: 0 <= i < |QuoteTable| ==> IsCurlyQuote(QuoteTable[i].0)
  {
    forall c | IsCurlyQuote(c)
      ensures exists i :: 0 <= i < |QuoteTable| && QuoteTable[i].0 == c
    {
      var i := if c == '\U{2019}' then 0 else if c == '\U{201C}' then 1 else 2;
      assert QuoteTable[i].0 == c;
    }
  }

  /** No curly quote survives. */
  lemma QuotesRemoved(s: string)
    ensures forall c :: c in FixQuotes(s) ==> !IsCurlyQuote(c)
  {
    QuoteTableShape();
    forall i | 0 <= i < |QuoteTable| ensures QuoteTable[i].0 !in FixQuotes(s) {
      ReplaceEachRemoves(s, QuoteTable, i);
    }
  }

  /** Text without curly quotes passes unchanged. */
  lemma QuotesAbsent(s: string)
    requires forall c :: c in s ==> !IsCurlyQuote(c)
    ensures FixQuotes(s) == s
  {
    QuoteTableShape();
    ReplaceEachAbsent(s, QuoteTable);
  }

  /** Only straight quotes are ever added. */
  lemma QuotesKeepAbsent(s: string, c: char)
    requires c !in s && c != '\'' && c != '"'
    ensures c !in FixQuotes(s)
  {
    QuoteTableShape();
    ReplaceEachKeeps(s, QuoteTable, c);
  }

  // ------------------------------------------------------------------
  // Markdown markers
  // ------------------------------------------------------------------

  /**
   * re.sub(r'\*\*([^*]+)\*\*', r'\1', s): at "**", the run of non-'*' characters up to the
   * next '*' is kept when it is non-empty and that '*' is followed by another one.
   */
  function UnwrapDouble(s: string): (r: string)
    ensures forall c :: c in r ==> c in s
    ensures '*' !in s ==> r == s
    decreases |s|
  {
    if s == [] then []
    else if |s| >= 2 && s[0] == '*' && s[1] == '*' then
      var j := IndexFrom(s, '*', 2);
      if j > 2 && j + 1 < |s| && s[j + 1] == '*' then s[2..j] + UnwrapDouble(s[j + 2..])
      else [s[0]] + UnwrapDouble(s[1..])
    else [s[0]] + UnwrapDouble(s[1..])
  }

  /** Unwrapping "**" pairs only removes '*': with every '*' deleted, nothing else has changed. */
  lemma {:induction false} UnwrapDoubleThenDelete(s: string)
    ensures Delete(UnwrapDouble(s), '*') == Delete(s, '*')
    decreases |s|
  {
    if s != [] {
      if |s| >= 2 && s[0] == '*' && s[1] == '*' && DoubleAt(s) {
        var j := IndexFrom(s, '*', 2);
        UnwrapDoublePairStep(s, j);
        UnwrapDoubleThenDelete(s[j + 2..]);
        DeleteAppend(s[2..j], UnwrapDouble(s[j + 2..]), '*');
        DeleteDoublePair(s, j);
      } else {
        UnwrapDoubleConsStep(s);
        UnwrapDoubleThenDelete(s[1..]);
        DeleteConsBoth(s[0], UnwrapDouble(s[1..]), s[1..], '*');
        ConsSplit(s);
      }
    }
  }

  /** `s` starts "**", a non-empty run without '*', and "**". */
  predicate DoubleAt(s: string)
    requires |s| >= 2
  {
    var j := IndexFrom(s, '*', 2);
    j > 2 && j + 1 < |s| && s[j + 1] == '*'
  }

  lemma UnwrapDoublePairStep(s: string, j: nat)
    requires |s| >= 2 && s[0] == '*' && s[1] == '*' && DoubleAt(s) && j == IndexFrom(s, '*', 2)
    ensures 2 < j && j + 1 < |s| && s[j] == '*' && s[j + 1] == '*' && '*' !in s[2..j]
    ensures UnwrapDouble(s) == s[2..j] + UnwrapDouble(s[j + 2..])
  {
    IndexFromFree(s, '*', 2);
    UnwrapDoubleUnfold(s);
  }

  lemma UnwrapDoubleUnfold(s: string)
    requires |s| >= 2 && s[0] == '*' && s[1] == '*' && DoubleAt(s)
    ensures UnwrapDouble(s) == s[2..IndexFrom(s, '*', 2)] + UnwrapDouble(s[IndexFrom(s, '*', 2) + 2..])
  {
  }

  lemma UnwrapDoubleConsStep(s: string)
    requires s != [] && !(|s| >= 2 && s[0] == '*' && s[1] == '*' && DoubleAt(s))
    ensures UnwrapDouble(s) == [s[0]] + UnwrapDouble(s[1..])
  {
  }

  /** Deleting '*' from "**" mid "**" rest leaves mid followed by the deletion from rest. */
  lemma DeleteDoublePair(s: string, j: nat)
    requires 2 < j && j + 1 < |s| && s[0] == '*' && s[1] == '*' && s[j] == '*' && s[j + 1] == '*'
    requires '*' !in s[2..j]
    ensures Delete(s, '*') == s[2..j] + Delete(s[j + 2..], '*')
  {
    DeleteTwoMarks(s, 0);
    assert s[0..] == s;
    SplitAt(s, 2, j);
    DeleteAppend(s[2..j], s[j..], '*');
    DeleteTwoMarks(s, j);
  }

  /** Two '*' at `i` are dropped by the deletion. */
  lemma DeleteTwoMarks(s: string, i: nat)
    requires i + 1 < |s| && s[i] == '*' && s[i + 1] == '*'
    ensures Delete(s[i..], '*') == Delete(s[i + 2..], '*')
  {
    DropNext(s, i);
    DeleteCons(s[i], s[i + 1..], '*');
    DropNext(s, i + 1);
    DeleteCons(s[i + 1], s[i + 2..], '*');
  }

  /** The backtick, bold, italic and underscore unwrapping, in that order. */
  function Unemphasize(s: string): string {
    Unwrap(Unwrap(UnwrapDouble(Unwrap(s, '`')), '*'), '_')
  }

  /** re.sub(r'#+', '', s) followed by the unwrapping. */
  function RemoveMarkup(s: string): string {
    Unemphasize(Delete(s, '#'))
  }

  /** The markup stage never adds a character. */
  lemma MarkupKeepsAbsent(s: string, c: char)
    requires c !in s
    ensures c !in RemoveMarkup(s)
  {
    assert c !in Delete(s, '#');
  }

  /** No '#' is left. */
  lemma MarkupRemovesHash(s: string)
    ensures '#' !in RemoveMarkup(s)
  {
    MarkupUnemphasizeAbsent(Delete(s, '#'), '#');
  }

  lemma MarkupUnemphasizeAbsent(s: string, c: char)
    requires c !in s
    ensures c !in Unemphasize(s)
  {
  }

  /** The markup stage only deletes markers: with '#', '`', '*' and '_' all dropped, the text is the same. */
  lemma MarkupOnlyDeletesMarkers(s: string)
    ensures DropAll(RemoveMarkup(s), Markers) == DropAll(s, Markers)
  {
    var a := Delete(s, '#');
    var b := Unwrap(a, '`');
    var c := UnwrapDouble(b);
    var d := Unwrap(c, '*');
    DropAllDelete(s, Markers, '#');
    UnwrapThenDelete(a, '`');
    SameDeletion(b, a, Markers, '`');
    UnwrapDoubleThenDelete(b);
    SameDeletion(c, b, Markers, '*');
    UnwrapThenDelete(c, '*');
    SameDeletion(d, c, Markers, '*');
    UnwrapThenDelete(d, '_');
    SameDeletion(Unwrap(d, '_'), d, Markers, '_');
  }

  const Markers: string := "#`*_"

  /** `s` without the characters of `cs`. */
  function DropAll(s: string, cs: string): string {
    if s == [] then [] else (if s[0] in cs then [] else [s[0]]) + DropAll(s[1..], cs)
  }

  /** Deleting one of the dropped characters first makes no difference. */
  lemma {:induction false} DropAllDelete(x: string, cs: string, d: char)
    requires d in cs
    ensures DropAll(Delete(x, d), cs) == DropAll(x, cs)
    decreases |x|
  {
    if x != [] {
      var rest := Delete(x[1..], d);
      assert x == [x[0]] + x[1..];
      DeleteCons(x[0], x[1..], d);
      DropAllDelete(x[1..], cs, d);
      assert DropAll(x, cs) == (if x[0] in cs then [] else [x[0]]) + DropAll(x[1..], cs);
      if x[0] != d {
        assert Delete(x, d) == [x[0]] + rest;
        DropAllCons(x[0], rest, cs);
      } else {
        assert Delete(x, d) == rest;
      }
    }
  }

  lemma DropAllCons(c: char, t: string, cs: string)
    ensures DropAll([c] + t, cs) == (if c in cs then [] else [c]) + DropAll(t, cs)
  {
    ConsAppend([c], t);
  }

  /** Two strings equal after deleting one dropped character are equal after dropping. */
  lemma SameDeletion(a: string, b: string, cs: string, d: char)
    requires d in cs && Delete(a, d) == Delete(b, d)
    ensures DropAll(a, cs) == DropAll(b, cs)
  {
    DropAllDelete(a, cs, d);
    DropAllDelete(b, cs, d);
  }

  // ------------------------------------------------------------------
  // Whitespace
  // ------------------------------------------------------------------

  predicate IsPlainSpace(c: char) {
    c == ' '
  }

  /** re.sub(r'[ ]{2,}', ' ', s): every run of spaces becomes one space. */
  function CollapseSpaces(s: string): (r: string)
    ensures forall c :: c in r ==> c in s
    ensures s != [] ==> r != [] && r[0] == s[0]
    decreases |s|
  {
    if s == [] then []
    else if s[0] == ' ' then [' '] + CollapseSpaces(s[Span(s, IsPlainSpace)..])
    else [s[0]] + CollapseSpaces(s[1..])
  }

  /** No two spaces in a row are left. */
  lemma {:induction false} CollapseNoDoubleSpace(s: string)
    ensures !Contains(CollapseSpaces(s), "  ")
    decreases |s|
  {
    if s == [] {
      EmptyContainsNothing("  ");
    } else if s[0] == ' ' {
      var n := Span(s, IsPlainSpace);
      var t := s[n..];
      CollapseNoDoubleSpace(t);
      if t != [] {
        assert t[0] == s[n];
      }
      NoDoubleAtFront(' ', CollapseSpaces(t));
      NotContainsCons(' ', CollapseSpaces(t), "  ");
    } else {
      CollapseNoDoubleSpace(s[1..]);
      NoDoubleAtFront(s[0], CollapseSpaces(s[1..]));
      NotContainsCons(s[0], CollapseSpaces(s[1..]), "  ");
    }
  }

  lemma NoDoubleAtFront(c: char, u: string)
    requires c != ' ' || u == [] || u[0] != ' '
    ensures !("  " <= [c] + u)
  {
    if |[c] + u| >= 2 {
      assert ([c] + u)[0] == c;
      assert ([c] + u)[1] == u[0];
    }
  }

  /** Text without two spaces in a row passes unchanged. */
  lemma {:induction false} CollapseSpacesClean(s: string)
    requires !Contains(s, "  ")
    ensures CollapseSpaces(s) == s
    decreases |s|
  {
    if s != [] {
      NotContainsSuffix(s, 1, "  ");
      if s[0] == ' ' {
        assert !("  " <= s[0..]);
        assert Span(s, IsPlainSpace) == 1;
      }
      CollapseSpacesClean(s[1..]);
      ConsSplit(s);
    }
  }

  /** `s` without its whitespace characters. */
  function DropWhitespace(s: string): string {
    if s == [] then [] else (if IsSpace(s[0]) then [] else [s[0]]) + DropWhitespace(s[1..])
  }

  lemma {:induction false} DropWhitespaceAppend(a: string, b: string)
    ensures DropWhitespace(a + b) == DropWhitespace(a) + DropWhitespace(b)
    decreases |a|
  {
    if a == [] {
      assert a + b == b;
    } else {
      ConsAppend(a, b);
      DropWhitespaceAppend(a[1..], b);
      var h := if IsSpace(a[0]) then [] else [a[0]];
      AppendAssoc(h, DropWhitespace(a[1..]), DropWhitespace(b));
    }
  }

  lemma {:induction false} DropWhitespaceOfBlank(a: string)
    requires forall k :: 0 <= k < |a| ==> IsSpace(a[k])
    ensures DropWhitespace(a) == []
    decreases |a|
  {
    if a != [] {
      DropWhitespaceOfBlank(a[1..]);
    }
  }

  /** Replacing the whitespace run at the front of `s` by `w`, itself blank, keeps the text. */
  lemma ReplaceBlankRun(s: string, n: nat, w: string, rest: string)
    requires n <= |s| && forall k :: 0 <= k < n ==> IsSpace(s[k])
    requires forall k :: 0 <= k < |w| ==> IsSpace(w[k])
    requires DropWhitespace(rest) == DropWhitespace(s[n..])
    ensures DropWhitespace(w + rest) == DropWhitespace(s)
  {
    DropWhitespaceAppend(w, rest);
    DropWhitespaceOfBlank(w);
    PrefixSplit(s[..n], s);
    DropWhitespaceAppend(s[..n], s[n..]);
    DropWhitespaceOfBlank(s[..n]);
  }

  /** Collapsing spaces changes nothing but whitespace. */
  lemma {:induction false} CollapseKeepsText(s: string)
    ensures DropWhitespace(CollapseSpaces(s)) == DropWhitespace(s)
    decreases |s|
  {
    if s != [] {
      if s[0] == ' ' {
        var n := Span(s, IsPlainSpace);
        CollapseKeepsText(s[n..]);
        ReplaceBlankRun(s, n, " ", CollapseSpaces(s[n..]));
      } else {
        CollapseKeepsText(s[1..]);
        ConsSplit(s);
        DropWhitespaceAppend([s[0]], s[1..]);
        DropWhitespaceAppend([s[0]], CollapseSpaces(s[1..]));
      }
    }
  }

  /**
   * re.sub(r'\s*\n+\s*', ' ', s): a maximal whitespace run that holds a '\n' becomes one
   * space; a run without one cannot match from any of its positions and stays.
   */
  function JoinNewlines(s: string): (r: string)
    ensures '\n' !in r
    ensures forall c :: c in r ==> c in s || c == ' '
    ensures '\n' !in s ==> r == s
    decreases |s|
  {
    if s == [] then []
    else if IsSpace(s[0]) then
      var n := Span(s, IsSpace);
      PrefixSplit(s[..n], s);
      (if '\n' in s[..n] then " " else s[..n]) + JoinNewlines(s[n..])
    else [s[0]] + JoinNewlines(s[1..])
  }

  /** Joining lines changes nothing but whitespace. */
  lemma {:induction false} JoinNewlinesKeepsText(s: string)
    ensures DropWhitespace(JoinNewlines(s)) == DropWhitespace(s)
    decreases |s|
  {
    if s != [] {
      if IsSpace(s[0]) {
        var n := Span(s, IsSpace);
        JoinNewlinesKeepsText(s[n..]);
        var w := if '\n' in s[..n] then " " else s[..n];
        ReplaceBlankRun(s, n, w, JoinNewlines(s[n..]));
      } else {
        JoinNewlinesKeepsText(s[1..]);
        ConsSplit(s);
        DropWhitespaceAppend([s[0]], s[1..]);
        DropWhitespaceAppend([s[0]], JoinNewlines(s[1..]));
      }
    }
  }

  function NormalizeSpaces(s: string): string {
    JoinNewlines(CollapseSpaces(s))
  }

  // ------------------------------------------------------------------
  // Sentence rejoin
  // ------------------------------------------------------------------

  const SentenceBreak: string := ". "

  /** `[p.strip() for p in ps if p.strip()]` */
  function Pieces(ps: seq<string>): (r: seq<string>)
    ensures forall k :: 0 <= k < |r| ==> IsSegment(r[k])
    decreases |ps|
  {
    if ps == [] then []
    else (if Strip(ps[0]) != [] then [Strip(ps[0])] else []) + Pieces(ps[1..])
  }

  lemma PiecesCons(ps: seq<string>)
    requires ps != []
    ensures Pieces(ps) == (if Strip(ps[0]) != [] then [Strip(ps[0])] else []) + Pieces(ps[1..])
  {
  }

  /** `ps[j]` is the first piece that is not blank. */
  predicate FirstKept(ps: seq<string>, j: int) {
    0 <= j < |ps| && Strip(ps[j]) != [] && forall i :: 0 <= i < j ==> Strip(ps[i]) == []
  }

  /** The first kept piece is the strip of the first piece that is not blank; none is kept when all are blank. */
  lemma {:induction false} PiecesHead(ps: seq<string>)
    ensures Pieces(ps) == [] <==> forall k :: 0 <= k < |ps| ==> Strip(ps[k]) == []
    ensures Pieces(ps) != [] ==> exists j :: FirstKept(ps, j) && Pieces(ps)[0] == Strip(ps[j])
    decreases |ps|
  {
    if ps != [] {
      PiecesCons(ps);
      PiecesHead(ps[1..]);
      if Strip(ps[0]) != [] {
        assert FirstKept(ps, 0) && Pieces(ps)[0] == Strip(ps[0]);
      } else {
        assert Pieces(ps) == Pieces(ps[1..]);
        forall k | 0 < k < |ps| ensures Strip(ps[k]) == Strip(ps[1..][k - 1]) {
        }
        if Pieces(ps) != [] {
          var j :| FirstKept(ps[1..], j) && Pieces(ps[1..])[0] == Strip(ps[1..][j]);
          FirstKeptShift(ps, j);
        }
      }
    }
  }

  lemma FirstKeptShift(ps: seq<string>, j: int)
    requires ps != [] && Strip(ps[0]) == [] && FirstKept(ps[1..], j)
    ensures FirstKept(ps, j + 1) && Strip(ps[j + 1]) == Strip(ps[1..][j])
  {
    forall i | 0 <= i < j + 1 ensures Strip(ps[i]) == [] {
      if i > 0 {
        assert ps[i] == ps[1..][i - 1];
      }
    }
  }

  /** Non-empty, with no whitespace at either end. */
  predicate IsSegment(p: string) {
    p != [] && !IsSpace(p[0]) && !IsSpace(p[|p| - 1])
  }

  function Rejoin(s: string): string {
    Join(Pieces(SplitOn(s, SentenceBreak)), SentenceBreak)
  }

  lemma SentenceBreakBorderFree()
    ensures BorderFree(SentenceBreak)
  {
    assert SentenceBreak[1..][0] == ' ' && SentenceBreak[..1][0] == '.';
  }

  /** Stripping keeps every piece free of the break. */
  lemma {:induction false} PiecesFree(ps: seq<string>, sep: string)
    requires forall k :: 0 <= k < |ps| ==> !Contains(ps[k], sep)
    ensures forall k :: 0 <= k < |Pieces(ps)| ==> !Contains(Pieces(ps)[k], sep)
    decreases |ps|
  {
    if ps != [] {
      PiecesFree(ps[1..], sep);
      StripKeepsAbsent(ps[0], Whitespace, sep);
      var h := if Strip(ps[0]) != [] then [Strip(ps[0])] else [];
      var r := Pieces(ps);
      PiecesCons(ps);
      forall k | 0 <= k < |r| ensures !Contains(r[k], sep) {
        if k >= |h| {
          assert r[k] == Pieces(ps[1..])[k - |h|];
        }
      }
    }
  }

  /**
   * Splitting the rejoined text on ". " gives back exactly the kept pieces, each a segment;
   * the text is empty exactly when no piece was kept.
   */
  lemma RejoinSegments(s: string)
    ensures var ps := Pieces(SplitOn(s, SentenceBreak));
      && (Rejoin(s) == [] <==> ps == [])
      && (Rejoin(s) != [] ==> SplitOn(Rejoin(s), SentenceBreak) == ps)
  {
    var ps := Pieces(SplitOn(s, SentenceBreak));
    if ps != [] {
      JoinNonEmpty(ps, SentenceBreak);
      SplitOnPiecesFree(s, SentenceBreak);
      PiecesFree(SplitOn(s, SentenceBreak), SentenceBreak);
      SentenceBreakBorderFree();
      JoinSplitOn(ps, SentenceBreak);
    }
  }

  /** Every segment between ". " breaks of the rejoined text is non-empty and stripped. */
  lemma RejoinSegmentsClean(s: string)
    requires Rejoin(s) != []
    ensures forall k :: 0 <= k < |SplitOn(Rejoin(s), SentenceBreak)| ==> IsSegment(SplitOn(Rejoin(s), SentenceBreak)[k])
  {
    RejoinSegments(s);
  }

  lemma {:induction false} PiecesKeepAbsent(ps: seq<string>, c: char)
    requires forall k :: 0 <= k < |ps| ==> c !in ps[k]
    ensures forall k :: 0 <= k < |Pieces(ps)| ==> c !in Pieces(ps)[k]
    decreases |ps|
  {
    if ps != [] {
      PiecesKeepAbsent(ps[1..], c);
      assert c !in Strip(ps[0]);
      var h := if Strip(ps[0]) != [] then [Strip(ps[0])] else [];
      var r := Pieces(ps);
      PiecesCons(ps);
      forall k | 0 <= k < |r| ensures c !in r[k] {
        if k >= |h| {
          assert r[k] == Pieces(ps[1..])[k - |h|];
        }
      }
    }
  }

  /** The rejoin only adds '.' and ' '. */
  lemma RejoinKeepsAbsent(s: string, c: char)
    requires c !in s && c != '.' && c != ' '
    ensures c !in Rejoin(s)
  {
    SplitOnKeepsAbsent(s, SentenceBreak, c);
    PiecesKeepAbsent(SplitOn(s, SentenceBreak), c);
    JoinKeepsAbsent(Pieces(SplitOn(s, SentenceBreak)), SentenceBreak, c);
  }

  // ------------------------------------------------------------------
  // Trim and capitalise
  // ------------------------------------------------------------------

  const EdgeChars: CharClass := OneOf(" .")

  /** `s[0].upper() + s[1:]` when `s` is non-empty. */
  function Capitalize(s: string): string {
    if s == [] then [] else [ToUpper(s[0])] + s[1..]
  }

  /** Only an ASCII lowercase first character changes, to its uppercase form. */
  lemma CapitalizeFirst(s: string)
    ensures |Capitalize(s)| == |s|
    ensures !StartsWithLower(Capitalize(s))
    ensures s != [] ==> Capitalize(s)[1..] == s[1..]
    ensures s != [] && !IsAsciiLower(s[0]) ==> Capitalize(s) == s
    ensures s != [] && IsAsciiLower(s[0]) ==> Capitalize(s)[0] as int == s[0] as int - 32
  {
  }

  lemma CapitalizeIdempotent(s: string)
    ensures Capitalize(Capitalize(s)) == Capitalize(s)
  {
    CapitalizeFirst(s);
    CapitalizeFirst(Capitalize(s));
  }

  /** `s.strip(' .')` and then the capital. */
  function Finish(s: string): string {
    Capitalize(StripWith(s, EdgeChars))
  }

  /** Neither end is ' ' or '.'. */
  lemma FinishEnds(s: string)
    ensures var r := Finish(s);
      r != [] ==> r[0] != ' ' && r[0] != '.' && r[|r| - 1] != ' ' && r[|r| - 1] != '.'
  {
    CapitalizeFirst(StripWith(s, EdgeChars));
  }

  /** Finishing only adds uppercase letters. */
  lemma FinishKeepsAbsent(s: string, c: char)
    requires c !in s && !IsAsciiUpper(c)
    ensures c !in Finish(s)
  {
    var t := StripWith(s, EdgeChars);
    if t != [] {
      assert Capitalize(t) == [ToUpper(t[0])] + t[1..];
      assert t[0] in t;
      NotInSlice(t, c, 1, |t|);
    }
  }

  /** Text made only of ' ' and '.' finishes empty. */
  lemma FinishOfEdges(s: string)
    requires forall k :: 0 <= k < |s| ==> s[k] == ' ' || s[k] == '.'
    ensures Finish(s) == []
  {
    StripAllDropped(s, EdgeChars);
  }

  // ------------------------------------------------------------------
  // clean_text
  // ------------------------------------------------------------------

  function Normalize(s: string): string {
    FixQuotes(FixBullets(ReplaceLigatures(s)))
  }

  function CleanText(text: string): string {
    Finish(Rejoin(NormalizeSpaces(RemoveMarkup(Normalize(text)))))
  }

  /** After the character fixes, no character other than ' ', '.' or an uppercase letter is added. */
  lemma TailKeepsAbsent(s: string, c: char)
    requires c !in s && c != ' ' && c != '.' && !IsAsciiUpper(c)
    ensures c !in Finish(Rejoin(NormalizeSpaces(RemoveMarkup(s))))
  {
    MarkupKeepsAbsent(s, c);
    var m := RemoveMarkup(s);
    assert c !in CollapseSpaces(m);
    RejoinKeepsAbsent(NormalizeSpaces(m), c);
    FinishKeepsAbsent(Rejoin(NormalizeSpaces(m)), c);
  }

  /** The output holds no ligature U+FB00..U+FB06. */
  lemma CleanTextNoLigature(text: string)
    ensures forall c :: c in CleanText(text) ==> !IsLigature(c)
  {
    LigaturesRemoved(text);
    forall c | IsLigature(c) ensures c !in CleanText(text) {
      var a := ReplaceLigatures(text);
      FixBulletsKeepAbsent(a, c);
      QuotesKeepAbsent(FixBullets(a), c);
      TailKeepsAbsent(Normalize(text), c);
    }
  }

  /** The output holds no U+2019, U+201C or U+201D. */
  lemma CleanTextNoCurlyQuote(text: string)
    ensures forall c :: c in CleanText(text) ==> !IsCurlyQuote(c)
  {
    QuotesRemoved(FixBullets(ReplaceLigatures(text)));
    forall c | IsCurlyQuote(c) ensures c !in CleanText(text) {
      TailKeepsAbsent(Normalize(text), c);
    }
  }

  /** The output holds no '#'. */
  lemma CleanTextNoHash(text: string)
    ensures '#' !in CleanText(text)
  {
    var m := RemoveMarkup(Normalize(text));
    MarkupRemovesHash(Normalize(text));
    assert '#' !in CollapseSpaces(m);
    RejoinKeepsAbsent(NormalizeSpaces(m), '#');
    FinishKeepsAbsent(Rejoin(NormalizeSpaces(m)), '#');
  }

  /** The output holds no newline. */
  lemma CleanTextNoNewline(text: string)
    ensures '\n' !in CleanText(text)
  {
    var w := NormalizeSpaces(RemoveMarkup(Normalize(text)));
    RejoinKeepsAbsent(w, '\n');
    FinishKeepsAbsent(Rejoin(w), '\n');
  }

  /** The output neither begins nor ends with ' ' or '.', and never begins with a lowercase letter. */
  lemma CleanTextEnds(text: string)
    ensures var r := CleanText(text);
      && (r != [] ==> r[0] != ' ' && r[0] != '.' && r[|r| - 1] != ' ' && r[|r| - 1] != '.')
      && !StartsWithLower(r)
  {
    var s := Rejoin(NormalizeSpaces(RemoveMarkup(Normalize(text))));
    FinishEnds(s);
    CapitalizeFirst(StripWith(s, EdgeChars));
  }

  /** Text made only of spaces and dots cleans to ''. */
  lemma CleanTextOfSpacesAndDots(text: string)
    requires forall k :: 0 <= k < |text| ==> text[k] == ' ' || text[k] == '.'
    ensures CleanText(text) == []
  {
    EdgesOnlyNormalized(text);
    var s := Rejoin(NormalizeSpaces(RemoveMarkup(text)));
    forall k | 0 <= k < |s| ensures s[k] == ' ' || s[k] == '.' {
      var c := s[k];
      if c != ' ' && c != '.' {
        assert c !in text;
        MarkupKeepsAbsent(text, c);
        assert c !in CollapseSpaces(RemoveMarkup(text));
        RejoinKeepsAbsent(NormalizeSpaces(RemoveMarkup(text)), c);
        assert false;
      }
    }
    FinishOfEdges(s);
  }

  /** The character fixes leave text of spaces and dots alone. */
  lemma EdgesOnlyNormalized(text: string)
    requires forall k :: 0 <= k < |text| ==> text[k] == ' ' || text[k] == '.'
    ensures Normalize(text) == text
  {
    LigaturesAbsent(text);
    AbsentPattern(text, EscapedBullet);
    AbsentPattern(text, MojibakeBullet);
    AbsentPattern(text, DashDot);
    FixBulletsAbsent(text);
    QuotesAbsent(text);
  }

  /** A pattern whose first character does not occur in the text does not occur in it. */
  lemma AbsentPattern(text: string, pat: string)
    requires pat != [] && pat[0] !in text
    ensures !Contains(text, pat)
  {
    if Contains(text, pat) {
      ContainsHead(text, pat);
    }
  }

  /** Only ASCII letters, digits and '_'. */
  predicate IsWordText(s: string) {
    forall k :: 0 <= k < |s| ==> IsWordChar(s[k])
  }

  /**
   * Text made only of ASCII letters, digits and '_' passes every stage untouched except the
   * underscore unwrapping and the capital.
   */
  lemma CleanTextOfWordText(s: string)
    requires IsWordText(s)
    ensures CleanText(s) == Capitalize(Unwrap(s, '_'))
  {
    var w := Unwrap(s, '_');
    WordTextStages(s);
    WordTextFinished(w);
    CleanTextFromStages(s, w);
  }

  lemma CleanTextFromStages(s: string, w: string)
    requires RemoveMarkup(Normalize(s)) == w
    requires Finish(Rejoin(NormalizeSpaces(w))) == Capitalize(w)
    ensures CleanText(s) == Capitalize(w)
  {
  }

  lemma WordTextStages(s: string)
    requires IsWordText(s)
    ensures RemoveMarkup(Normalize(s)) == Unwrap(s, '_')
    ensures IsWordText(Unwrap(s, '_'))
  {
    WordTextNormalized(s);
    WordTextMarkup(s);
  }

  lemma WordTextMarkup(s: string)
    requires IsWordText(s)
    ensures RemoveMarkup(s) == Unwrap(s, '_')
    ensures IsWordText(Unwrap(s, '_'))
  {
    assert Delete(s, '#') == s;
    assert Unwrap(s, '`') == s;
    assert UnwrapDouble(s) == s;
    var w := Unwrap(s, '_');
    forall k | 0 <= k < |w| ensures IsWordChar(w[k]) {
      assert w[k] in s;
    }
  }

  lemma WordTextNormalized(s: string)
    requires IsWordText(s)
    ensures Normalize(s) == s
  {
    WordTextAscii(s);
    LigaturesAbsent(s);
    assert ReplaceLigatures(s) == s;
    WordTextBullets(s);
    assert FixBullets(s) == s;
    QuotesAbsent(s);
  }

  /** Word characters lie between '0' and 'z'. */
  lemma WordTextAscii(s: string)
    requires IsWordText(s)
    ensures forall c :: c in s ==> '0' <= c <= 'z'
  {
    forall c | c in s
      ensures '0' <= c <= 'z'
    {
      var k :| 0 <= k < |s| && s[k] == c;
      assert IsWordChar(s[k]);
    }
  }

  lemma WordTextBullets(s: string)
    requires IsWordText(s)
    ensures FixBullets(s) == s
  {
    AbsentPattern(s, EscapedBullet);
    AbsentPattern(s, MojibakeBullet);
    AbsentPattern(s, DashDot);
    FixBulletsAbsent(s);
  }

  /** Word text is its own whitespace normalisation, rejoin and trim. */
  lemma WordTextFinished(w: string)
    requires IsWordText(w)
    ensures Finish(Rejoin(NormalizeSpaces(w))) == Capitalize(w)
  {
    AbsentPattern(w, "  ");
    CollapseSpacesClean(w);
    assert NormalizeSpaces(w) == w;
    AbsentPattern(w, SentenceBreak);
    SplitOnFree(w, SentenceBreak);
    StripClean(w, Whitespace);
    if w == [] {
      assert Pieces([w]) == [];
    } else {
      PiecesCons([w]);
      assert Pieces([w]) == [w];
    }
    StripClean(w, EdgeChars);
  }

  /** clean_text is not idempotent: its own output "_a_" is cleaned again to "A". */
  lemma CleanTextNotIdempotent(x: string)
    requires x == "__a__"
    ensures CleanText(x) == "_a_"
    ensures CleanText(CleanText(x)) == "A"
  {
    CleanOuter(x);
    CleanInner(CleanText(x));
  }

  lemma CleanOuter(x: string)
    requires x == "__a__"
    ensures CleanText(x) == "_a_"
  {
    assert IsWordText(x) by {
      forall k | 0 <= k < |x| ensures IsWordChar(x[k]) {
      }
    }
    CleanTextOfWordText(x);
    UnwrapOuter(x);
  }

  lemma CleanInner(y: string)
    requires y == "_a_"
    ensures CleanText(y) == "A"
  {
    assert IsWordText(y) by {
      forall k | 0 <= k < |y| ensures IsWordChar(y[k]) {
      }
    }
    CleanTextOfWordText(y);
    UnwrapInner(y);
  }

  lemma UnwrapOuter(x: string)
    requires x == "__a__"
    ensures Unwrap(x, '_') == "_a_" && Capitalize("_a_") == "_a_"
  {
    var t := x[1..];
    assert IndexFrom(x, '_', 1) == 1;
    assert IndexFrom(t, '_', 1) == 2;
    assert t[3..] == "_";
    assert Unwrap("_", '_') == "_";
  }

  lemma UnwrapInner(y: string)
    requires y == "_a_"
    ensures Unwrap(y, '_') == "a" && Capitalize("a") == "A"
  {
    assert IndexFrom(y, '_', 1) == 2;
    assert y[3..] == [];
  }
}
