/**
 * Python `str` built-ins that the pipeline relies on, written as scanning
 * functions over `seq<char>`, and the one `re.sub` rewrite, `d([^d]+)d`, that
 * the outline extractor and `clean_text` share.
 *
 * Whitespace is Python's `str.isspace()` set (the set that `\s`, `split()` and
 * `strip()` use); digits, word characters and upper-casing are ASCII only.
 */
module PyStrings {

  datatype Option<T> = None | Some(value: T) {
    /** dict.get(key, default) once the lookup is done */
    function GetOr(default: T): T {
      if Some? then value else default
    }
  }

  // ------------------------------------------------------------------
  // Sequence facts, stated once so that proofs about strings need not rediscover them
  // ------------------------------------------------------------------

  /** [f(x) for x in s] */
  function Map<A, B>(f: A -> B, s: seq<A>): (r: seq<B>)
    ensures |r| == |s|
    decreases |s|
  {
    if s == [] then [] else [f(s[0])] + Map(f, s[1..])
  }

  lemma {:induction false} MapIndex<A, B>(f: A -> B, s: seq<A>, j: nat)
    requires j < |s|
    ensures Map(f, s)[j] == f(s[j])
    decreases j
  {
    if j > 0 {
      MapIndex(f, s[1..], j - 1);
    }
  }

  /** Mapping over a prefix and one more element extends the mapped prefix by one. */
  lemma MapSnoc<A, B>(f: A -> B, s: seq<A>, i: nat)
    requires i < |s|
    ensures Map(f, s[..i + 1]) == Map(f, s[..i]) + [f(s[i])]
  {
    MapAppend(f, s[..i], [s[i]]);
    assert s[..i + 1] == s[..i] + [s[i]];
    assert Map(f, [s[i]]) == [f(s[i])] + Map(f, []);
  }

  lemma {:induction false} MapAppend<A, B>(f: A -> B, a: seq<A>, b: seq<A>)
    ensures Map(f, a + b) == Map(f, a) + Map(f, b)
    decreases |a|
  {
    if a == [] {
      assert a + b == b;
    } else {
      ConsAppend(a, b);
      MapAppend(f, a[1..], b);
      AppendAssoc([f(a[0])], Map(f, a[1..]), Map(f, b));
    }
  }

  lemma AppendAssoc<T>(p: seq<T>, q: seq<T>, r: seq<T>)
    ensures (p + q) + r == p + (q + r)
  {
  }

  lemma AppendEmptyMiddle<T>(p: seq<T>, q: seq<T>, r: seq<T>)
    requires q == []
    ensures (p + q) + r == p + r
  {
  }

  lemma PrefixSplit<T>(p: seq<T>, s: seq<T>)
    requires p <= s
    ensures s == p + s[|p|..]
  {
  }

  lemma SplitAt<T>(s: seq<T>, i: nat, j: nat)
    requires i <= j <= |s|
    ensures s[i..] == s[i..j] + s[j..]
  {
  }

  lemma PrefixIndex<T>(a: seq<T>, b: seq<T>, k: nat)
    requires a <= b && k < |a|
    ensures k < |b| && b[k] == a[k]
  {
  }

  lemma NotInSlice<T>(s: seq<T>, x: T, i: nat, j: nat)
    requires i <= j <= |s| && x !in s
    ensures x !in s[i..j] && x !in s[i..]
  {
  }

  lemma DropPrefix<T>(p: seq<T>, s: seq<T>)
    ensures (p + s)[|p|..] == s
  {
  }

  lemma ConsSplit<T>(s: seq<T>)
    requires s != []
    ensures s == [s[0]] + s[1..]
  {
  }

  lemma ConsAppend<T>(a: seq<T>, b: seq<T>)
    requires a != []
    ensures (a + b)[0] == a[0] && (a + b)[1..] == a[1..] + b
  {
  }

  lemma DropLastAppend<T>(a: seq<T>, b: seq<T>)
    requires b != []
    ensures (a + b)[..|a + b| - 1] == a + b[..|b| - 1]
    ensures (a + b)[|a + b| - 1] == b[|b| - 1]
  {
  }

  lemma TakeNext<T>(s: seq<T>, i: nat)
    requires i < |s|
    ensures s[..i + 1] == s[..i] + [s[i]]
    ensures s[..i + 1][..i] == s[..i]
  {
  }

  lemma TakeAll<T>(s: seq<T>)
    ensures s[..|s|] == s
  {
  }

  lemma DropNext<T>(s: seq<T>, i: nat)
    requires i < |s|
    ensures s[i..] == [s[i]] + s[i + 1..]
    ensures s[i..][0] == s[i] && s[i..][1..] == s[i + 1..]
  {
  }

  /** `s` is the concatenation of its pieces cut at i <= j <= k. */
  lemma Cut3<T>(s: seq<T>, i: nat, j: nat, k: nat)
    requires i <= j <= k <= |s|
    ensures s == s[..i] + (s[i..j] + (s[j..k] + s[k..]))
  {
  }

  // ------------------------------------------------------------------
  // Character classes
  // ------------------------------------------------------------------

  /** str.isspace() */
  predicate IsSpace(c: char) {
    c == ' ' || ('\t' <= c <= '\r') || ('\U{1C}' <= c <= '\U{1F}')
    || c == '\U{85}' || c == '\U{A0}' || c == '\U{1680}'
    || ('\U{2000}' <= c <= '\U{200A}') || c == '\U{2028}' || c == '\U{2029}'
    || c == '\U{202F}' || c == '\U{205F}' || c == '\U{3000}'
  }

  predicate NotSpace(c: char) {
    !IsSpace(c)
  }

  /** The line boundaries of str.splitlines() ("\r\n" counts as one). */
  predicate IsLineBreak(c: char) {
    ('\n' <= c <= '\r') || ('\U{1C}' <= c <= '\U{1E}')
    || c == '\U{85}' || c == '\U{2028}' || c == '\U{2029}'
  }

  predicate NotLineBreak(c: char) {
    !IsLineBreak(c)
  }

  predicate IsAsciiLower(c: char) { 'a' <= c <= 'z' }
  predicate IsAsciiUpper(c: char) { 'A' <= c <= 'Z' }
  predicate IsAsciiDigit(c: char) { '0' <= c <= '9' }

  /** `\w`, restricted to ASCII. */
  predicate IsWordChar(c: char) {
    IsAsciiLower(c) || IsAsciiUpper(c) || IsAsciiDigit(c) || c == '_'
  }

  /** str.upper() of one character, restricted to ASCII. */
  function ToUpper(c: char): (u: char)
    ensures !IsAsciiLower(u)
    ensures IsAsciiLower(c) ==> IsAsciiUpper(u)
    ensures !IsAsciiLower(c) ==> u == c
  {
    if IsAsciiLower(c) then (c as int - 32) as char else c
  }

  /** re.match(r'^[a-z]', s) succeeds */
  predicate StartsWithLower(s: string) {
    |s| > 0 && IsAsciiLower(s[0])
  }

  // ------------------------------------------------------------------
  // Searching
  // ------------------------------------------------------------------

  /** The length of the longest prefix of `s` whose characters all satisfy `p`. */
  function Span(s: string, p: char -> bool): (n: nat)
    ensures n <= |s|
    ensures forall k :: 0 <= k < n ==> p(s[k])
    ensures n < |s| ==> !p(s[n])
  {
    if s != [] && p(s[0]) then 1 + Span(s[1..], p) else 0
  }

  /** `pat in s` for strings */
  predicate Contains(s: string, pat: string) {
    exists i :: 0 <= i <= |s| && pat <= s[i..]
  }

  lemma ContainsHead(s: string, pat: string)
    requires pat != [] && Contains(s, pat)
    ensures pat[0] in s
  {
    var i :| 0 <= i <= |s| && pat <= s[i..];
    assert s[i] == pat[0];
  }

  lemma EmptyContainsNothing(pat: string)
    requires pat != []
    ensures !Contains([], pat)
  {
  }

  /** A slice of a string free of `pat` is free of it too. */
  lemma NotContainsSlice(s: string, i: nat, j: nat, pat: string)
    requires i <= j <= |s| && !Contains(s, pat)
    ensures !Contains(s[i..j], pat)
  {
    forall k | 0 <= k <= j - i ensures !(pat <= s[i..j][k..]) {
      var inner, outer := s[i..j][k..], s[i + k..];
      assert inner <= outer;
      assert !(pat <= outer);
      assert pat <= inner ==> pat <= outer;
    }
  }

  lemma NotContainsSuffix(s: string, i: nat, pat: string)
    requires i <= |s| && !Contains(s, pat)
    ensures !Contains(s[i..], pat)
  {
    NotContainsSlice(s, i, |s|, pat);
    assert s[i..|s|] == s[i..];
  }

  lemma PrefixTrans(a: string, b: string, c: string)
    requires a <= b && b <= c
    ensures a <= c
  {
    assert c[..|a|] == b[..|a|];
  }

  /** First index at or after `i` holding `c`, or |s| when there is none. */
  function IndexFrom(s: string, c: char, i: nat): (j: nat)
    requires i <= |s|
    ensures i <= j <= |s|
    ensures forall k :: i <= k < j ==> s[k] != c
    ensures j < |s| ==> s[j] == c
    decreases |s| - i
  {
    if i == |s| || s[i] == c then i else IndexFrom(s, c, i + 1)
  }

  // ------------------------------------------------------------------
  // str.replace
  // ------------------------------------------------------------------

  /** s.replace(pat, rep): non-overlapping occurrences, scanning left to right. */
  function Replace(s: string, pat: string, rep: string): (r: string)
    requires pat != []
    ensures forall c :: c in r ==> c in s || c in rep
    decreases |s|
  {
    if s == [] then []
    else if pat <= s then rep + Replace(s[|pat|..], pat, rep)
    else [s[0]] + Replace(s[1..], pat, rep)
  }

  /** Replacing a pattern that does not occur changes nothing. */
  lemma {:induction false} ReplaceAbsent(s: string, pat: string, rep: string)
    requires pat != [] && !Contains(s, pat)
    ensures Replace(s, pat, rep) == s
    decreases |s|
  {
    if s != [] {
      assert !(pat <= s[0..]);
      NotContainsSuffix(s, 1, pat);
      ReplaceAbsent(s[1..], pat, rep);
    }
  }

  /** Replacing a character that the replacement does not contain removes every occurrence of it. */
  lemma {:induction false} ReplaceCharRemoves(s: string, c: char, rep: string)
    requires c !in rep
    ensures c !in Replace(s, [c], rep)
    decreases |s|
  {
    if s != [] {
      ReplaceCharRemoves(s[1..], c, rep);
    }
  }

  /**
   * A prefix `w` of the output that shows no character of a non-empty `rep` was copied from
   * the input unchanged.
   */
  lemma {:induction false} PrefixOfReplace(t: string, pat: string, rep: string, w: string)
    requires pat != [] && rep != []
    requires forall c :: c in w ==> c !in rep
    ensures w <= Replace(t, pat, rep) ==> w <= t
    decreases |t|
  {
    if w != [] && t != [] {
      var r := Replace(t, pat, rep);
      if pat <= t {
        assert r[0] == rep[0] && rep[0] in rep && w[0] in w;
      } else {
        var rt := Replace(t[1..], pat, rep);
        assert r == [t[0]] + rt;
        PrefixOfReplace(t[1..], pat, rep, w[1..]);
        assert w <= r ==> w[1..] <= rt;
        assert w[1..] <= t[1..] ==> w[0] == t[0] ==> w <= t;
      }
    }
  }

  /**
   * No occurrence of `q` is left in the output of a replacement whose `rep` is non-empty and
   * shares no character with `q`: neither of `q == pat` itself, nor of a `q` absent from the input.
   */
  lemma {:induction false} ReplaceNoOccurrence(s: string, pat: string, rep: string, q: string)
    requires pat != [] && rep != [] && q != []
    requires forall c :: c in rep ==> c !in q
    requires q == pat || !Contains(s, q)
    ensures !Contains(Replace(s, pat, rep), q)
    decreases |s|
  {
    var r := Replace(s, pat, rep);
    if s == [] {
      EmptyContainsNothing(q);
    } else if pat <= s {
      var t := s[|pat|..];
      if q != pat {
        NotContainsSuffix(s, |pat|, q);
      }
      ReplaceNoOccurrence(t, pat, rep, q);
      var rt := Replace(t, pat, rep);
      assert r == rep + rt;
      NotContainsAfterForeign(rep, rt, q);
    } else {
      var t := s[1..];
      if q != pat {
        NotContainsSuffix(s, 1, q);
        assert !(q <= s[0..]);
      }
      ReplaceNoOccurrence(t, pat, rep, q);
      var rt := Replace(t, pat, rep);
      assert r == [s[0]] + rt;
      var q1 := q[1..];
      PrefixOfReplace(t, pat, rep, q1);
      assert q <= r ==> q1 <= rt;
      assert q1 <= t ==> q[0] == s[0] ==> q <= s;
      NotContainsCons(s[0], rt, q);
    }
  }

  /** Prepending characters foreign to `q` cannot create an occurrence of `q`. */
  lemma NotContainsAfterForeign(a: string, b: string, q: string)
    requires q != [] && (forall c :: c in a ==> c !in q) && !Contains(b, q)
    ensures !Contains(a + b, q)
  {
    var r := a + b;
    forall i | 0 <= i <= |r| ensures !(q <= r[i..]) {
      if i < |a| {
        assert r[i] == a[i] && a[i] in a && q[0] in q;
      } else {
        assert r[i..] == b[i - |a|..];
      }
    }
  }

  /** An occurrence in `[c] + u` is either at the front or already in `u`. */
  lemma NotContainsCons(c: char, u: string, q: string)
    requires q != [] && !Contains(u, q) && !(q <= [c] + u)
    ensures !Contains([c] + u, q)
  {
    var r := [c] + u;
    forall i | 0 <= i <= |r| ensures !(q <= r[i..]) {
      if i != 0 {
        assert r[i..] == u[i - 1..];
      }
    }
  }

  /** `for uni, rep in table.items(): s = s.replace(uni, rep)` over a table of one-character keys. */
  function ReplaceEach(s: string, table: seq<(char, string)>): string
    decreases |table|
  {
    if table == [] then s
    else ReplaceEach(Replace(s, [table[0].0], table[0].1), table[1..])
  }

  /** The table never reintroduces a character that none of its replacements contains. */
  lemma {:induction false} ReplaceEachKeeps(s: string, table: seq<(char, string)>, c: char)
    requires c !in s
    requires forall i :: 0 <= i < |table| ==> c !in table[i].1
    ensures c !in ReplaceEach(s, table)
    decreases |table|
  {
    if table != [] {
      ReplaceEachKeeps(Replace(s, [table[0].0], table[0].1), table[1..], c);
    }
  }

  /** Each key of a table whose replacements contain no key is gone after the fold. */
  lemma {:induction false} ReplaceEachRemoves(s: string, table: seq<(char, string)>, i: nat)
    requires i < |table|
    requires forall j, m :: 0 <= j < |table| && 0 <= m < |table| ==> table[j].0 !in table[m].1
    ensures table[i].0 !in ReplaceEach(s, table)
    decreases |table|
  {
    var s1 := Replace(s, [table[0].0], table[0].1);
    if i == 0 {
      ReplaceCharRemoves(s, table[0].0, table[0].1);
      ReplaceEachKeeps(s1, table[1..], table[0].0);
    } else {
      ReplaceEachRemoves(s1, table[1..], i - 1);
    }
  }

  /** A string holding none of the keys is left as it is. */
  lemma {:induction false} ReplaceEachAbsent(s: string, table: seq<(char, string)>)
    requires forall i :: 0 <= i < |table| ==> table[i].0 !in s
    ensures ReplaceEach(s, table) == s
    decreases |table|
  {
    if table != [] {
      if Contains(s, [table[0].0]) {
        ContainsHead(s, [table[0].0]);
      }
      ReplaceAbsent(s, [table[0].0], table[0].1);
      ReplaceEachAbsent(s, table[1..]);
    }
  }

  // ------------------------------------------------------------------
  // Deleting one character (`s.replace(c, '')`, and `re.sub(c + '+', '', s)`)
  // ------------------------------------------------------------------

  function Delete(s: string, c: char): (r: string)
    ensures c !in r
    ensures forall x :: x in r ==> x in s
    ensures c !in s ==> r == s
  {
    if s == [] then []
    else (if s[0] == c then [] else [s[0]]) + Delete(s[1..], c)
  }

  lemma {:induction false} DeleteAppend(a: string, b: string, c: char)
    ensures Delete(a + b, c) == Delete(a, c) + Delete(b, c)
    decreases |a|
  {
    if a == [] {
      assert a + b == b;
    } else {
      ConsAppend(a, b);
      DeleteAppend(a[1..], b, c);
      var h := if a[0] == c then [] else [a[0]];
      AppendAssoc(h, Delete(a[1..], c), Delete(b, c));
    }
  }

  // ------------------------------------------------------------------
  // str.strip
  // ------------------------------------------------------------------

  /** The characters `strip` removes: whitespace by default, or those of an explicit argument. */
  datatype CharClass = Whitespace | OneOf(chars: string)

  predicate InClass(c: char, cls: CharClass) {
    match cls
    case Whitespace => IsSpace(c)
    case OneOf(cs) => c in cs
  }

  /** First index at or after `i` whose character is not in `cls`, or |s|. */
  function StripStart(s: string, i: nat, cls: CharClass): (b: nat)
    requires i <= |s|
    ensures i <= b <= |s|
    ensures forall k :: i <= k < b ==> InClass(s[k], cls)
    ensures b < |s| ==> !InClass(s[b], cls)
    decreases |s| - i
  {
    if i == |s| || !InClass(s[i], cls) then i else StripStart(s, i + 1, cls)
  }

  /** Greatest index `e` down from `j` and above `b` such that s[e - 1] is not in `cls`, or `b`. */
  function StripEnd(s: string, b: nat, j: nat, cls: CharClass): (e: nat)
    requires b <= j <= |s|
    ensures b <= e <= j
    ensures forall k :: e <= k < j ==> InClass(s[k], cls)
    ensures e > b ==> !InClass(s[e - 1], cls)
    decreases j
  {
    if j == b || !InClass(s[j - 1], cls) then j else StripEnd(s, b, j - 1, cls)
  }

  /** s.strip(chars): the slice between the first and the last character not in `cls`. */
  function StripWith(s: string, cls: CharClass): (r: string)
    ensures r != [] ==> !InClass(r[0], cls) && !InClass(r[|r| - 1], cls)
    ensures forall c :: c in r ==> c in s
  {
    var b := StripStart(s, 0, cls);
    s[b..StripEnd(s, b, |s|, cls)]
  }

  /** s.strip() */
  function Strip(s: string): (r: string)
    ensures r != [] ==> !IsSpace(r[0]) && !IsSpace(r[|r| - 1])
    ensures forall c :: c in r ==> c in s
  {
    StripWith(s, Whitespace)
  }

  /** The strip of `s` is a slice of `s`, hence free of any pattern `s` is free of. */
  lemma StripKeepsAbsent(s: string, cls: CharClass, pat: string)
    requires !Contains(s, pat)
    ensures !Contains(StripWith(s, cls), pat)
  {
    var b := StripStart(s, 0, cls);
    NotContainsSlice(s, b, StripEnd(s, b, |s|, cls), pat);
  }

  /** Stripping a string made only of stripped characters leaves nothing. */
  lemma StripAllDropped(s: string, cls: CharClass)
    requires forall k :: 0 <= k < |s| ==> InClass(s[k], cls)
    ensures StripWith(s, cls) == []
  {
  }

  /** A string with no stripped character at either end is its own strip. */
  lemma StripClean(s: string, cls: CharClass)
    requires s != [] ==> !InClass(s[0], cls) && !InClass(s[|s| - 1], cls)
    ensures StripWith(s, cls) == s
  {
    if s != [] {
      assert StripStart(s, 0, cls) == 0;
      assert StripEnd(s, 0, |s|, cls) == |s|;
      assert s[0..|s|] == s;
    }
  }

  // ------------------------------------------------------------------
  // str.split() and str.join
  // ------------------------------------------------------------------

  /** A word of str.split(): non-empty, without whitespace. */
  predicate IsToken(w: string) {
    w != [] && forall k :: 0 <= k < |w| ==> !IsSpace(w[k])
  }

  /** First index at or after `i` whose character is (`space`) or is not (`!space`) whitespace, or |s|. */
  function SkipFrom(s: string, i: nat, space: bool): (j: nat)
    requires i <= |s|
    ensures i <= j <= |s|
    ensures forall k :: i <= k < j ==> IsSpace(s[k]) != space
    ensures j < |s| ==> IsSpace(s[j]) == space
    decreases |s| - i
  {
    if i == |s| || IsSpace(s[i]) == space then i else SkipFrom(s, i + 1, space)
  }

  /** s.split() with no separator: the maximal runs of non-whitespace, in order. */
  function Words(s: string): (ws: seq<string>)
    ensures forall k :: 0 <= k < |ws| ==> IsToken(ws[k])
    decreases |s|
  {
    var b := SkipFrom(s, 0, false);
    if b == |s| then []
    else
      var e := SkipFrom(s, b, true);
      [s[b..e]] + Words(s[e..])
  }

  /** sep.join(parts) */
  function Join(parts: seq<string>, sep: string): string {
    if parts == [] then []
    else if |parts| == 1 then parts[0]
    else parts[0] + sep + Join(parts[1..], sep)
  }

  /** No whitespace at either end; every whitespace character is a single ' ' between two non-blanks. */
  predicate SingleSpaced(r: string) {
    && (r != [] ==> !IsSpace(r[0]) && !IsSpace(r[|r| - 1]))
    && forall i :: 0 <= i < |r| ==> SpaceOkAt(r, i)
  }

  /** Whitespace at `i`, if any, is a single ' ' followed by a non-blank. */
  predicate SpaceOkAt(r: string, i: nat) {
    i < |r| && IsSpace(r[i]) ==> r[i] == ' ' && i + 1 < |r| && !IsSpace(r[i + 1])
  }

  /** ' '.join(words) is single-spaced whenever the words are tokens. */
  lemma {:induction false} JoinTokensSingleSpaced(ws: seq<string>)
    requires forall k :: 0 <= k < |ws| ==> IsToken(ws[k])
    ensures SingleSpaced(Join(ws, " "))
    decreases |ws|
  {
    if |ws| > 1 {
      var rest := Join(ws[1..], " ");
      JoinTokensSingleSpaced(ws[1..]);
      JoinNonEmpty(ws[1..], " ");
      var r := ws[0] + " " + rest;
      assert Join(ws, " ") == r;
      var w := ws[0];
      assert IsToken(w);
      forall i | 0 <= i < |r|
        ensures SpaceOkAt(r, i)
      {
        if i < |w| {
          assert r[i] == w[i];
        } else if i == |w| {
          assert r[i + 1] == rest[0];
        } else {
          assert r[i] == rest[i - |w| - 1];
          assert i + 1 < |r| ==> r[i + 1] == rest[i - |w|];
          assert SpaceOkAt(rest, i - |w| - 1);
        }
      }
      assert r[0] == w[0];
      assert r[|r| - 1] == rest[|rest| - 1];
    }
  }

  lemma {:induction false} JoinNonEmpty(ws: seq<string>, sep: string)
    requires ws != [] && forall k :: 0 <= k < |ws| ==> ws[k] != []
    ensures Join(ws, sep) != []
  {
  }

  /** ' '.join(s.split()) is single-spaced. */
  lemma SplitJoinSingleSpaced(s: string)
    ensures SingleSpaced(Join(Words(s), " "))
  {
    JoinTokensSingleSpaced(Words(s));
  }

  /** The words of a single token are that token. */
  lemma WordsOfToken(w: string)
    requires IsToken(w)
    ensures Words(w) == [w]
  {
    assert SkipFrom(w, 0, false) == 0;
    assert SkipFrom(w, 0, true) == |w|;
    assert w[0..|w|] == w;
    assert w[|w|..] == [];
    assert Words([]) == [];
  }

  // ------------------------------------------------------------------
  // str.split(sep)
  // ------------------------------------------------------------------

  /** s.split(sep): the pieces between non-overlapping occurrences of `sep`, scanning left to right. */
  function SplitOn(s: string, sep: string): (parts: seq<string>)
    requires sep != []
    ensures |parts| >= 1 && parts[0] <= s
    decreases |s|
  {
    if s == [] then [[]]
    else if sep <= s then [[]] + SplitOn(s[|sep|..], sep)
    else
      var rest := SplitOn(s[1..], sep);
      [[s[0]] + rest[0]] + rest[1..]
  }

  lemma JoinCons(p: string, ps: seq<string>, sep: string)
    requires ps != []
    ensures Join([p] + ps, sep) == p + sep + Join(ps, sep)
  {
    assert ([p] + ps)[1..] == ps;
  }

  /** Joining the pieces with the separator gives the string back. */
  lemma {:induction false} SplitOnJoin(s: string, sep: string)
    requires sep != []
    ensures Join(SplitOn(s, sep), sep) == s
    decreases |s|
  {
    if s == [] {
    } else if sep <= s {
      SplitOnJoin(s[|sep|..], sep);
      SplitOnJoinSep(s, sep);
    } else {
      SplitOnJoin(s[1..], sep);
      SplitOnJoinChar(s, sep);
    }
  }

  /** The step of SplitOnJoin where `s` starts with the separator. */
  lemma SplitOnJoinSep(s: string, sep: string)
    requires sep != [] && s != [] && sep <= s
    requires Join(SplitOn(s[|sep|..], sep), sep) == s[|sep|..]
    ensures Join(SplitOn(s, sep), sep) == s
  {
    var t := s[|sep|..];
    assert SplitOn(s, sep) == [[]] + SplitOn(t, sep);
    JoinCons([], SplitOn(t, sep), sep);
    PrefixSplit(sep, s);
    assert [] + sep == sep;
  }

  /** The step of SplitOnJoin where `s` does not start with the separator. */
  lemma SplitOnJoinChar(s: string, sep: string)
    requires sep != [] && s != [] && !(sep <= s)
    requires Join(SplitOn(s[1..], sep), sep) == s[1..]
    ensures Join(SplitOn(s, sep), sep) == s
  {
    var rest := SplitOn(s[1..], sep);
    SplitOnChar(s, sep);
    JoinHeadChar(s[0], rest, sep);
    assert s == [s[0]] + s[1..];
  }

  lemma SplitOnChar(s: string, sep: string)
    requires sep != [] && s != [] && !(sep <= s)
    ensures SplitOn(s, sep) == [[s[0]] + SplitOn(s[1..], sep)[0]] + SplitOn(s[1..], sep)[1..]
  {
  }

  /** Putting a character in front of the first piece puts it in front of the joined string. */
  lemma JoinHeadChar(c: char, ps: seq<string>, sep: string)
    requires ps != []
    ensures Join([[c] + ps[0]] + ps[1..], sep) == [c] + Join(ps, sep)
  {
    var head := [c] + ps[0];
    if |ps| == 1 {
      assert [head] + ps[1..] == [head];
    } else {
      JoinCons(head, ps[1..], sep);
      JoinCons(ps[0], ps[1..], sep);
      assert [ps[0]] + ps[1..] == ps;
      AppendAssoc([c], ps[0], sep + Join(ps[1..], sep));
      AppendAssoc(ps[0], sep, Join(ps[1..], sep));
      AppendAssoc(head, sep, Join(ps[1..], sep));
    }
  }



  /** No piece of a split contains the separator. */
  lemma {:induction false} SplitOnPiecesFree(s: string, sep: string)
    requires sep != []
    ensures forall k :: 0 <= k < |SplitOn(s, sep)| ==> !Contains(SplitOn(s, sep)[k], sep)
    decreases |s|
  {
    var ps := SplitOn(s, sep);
    if s == [] {
      assert ps == [[]];
      EmptyContainsNothing(sep);
    } else if sep <= s {
      SplitOnPiecesFree(s[|sep|..], sep);
      var rest := SplitOn(s[|sep|..], sep);
      assert ps == [[]] + rest;
      EmptyContainsNothing(sep);
      forall k | 0 <= k < |ps| ensures !Contains(ps[k], sep) {
        if k > 0 {
          assert ps[k] == rest[k - 1];
        }
      }
    } else {
      SplitOnPiecesFree(s[1..], sep);
      var rest := SplitOn(s[1..], sep);
      var p := [s[0]] + rest[0];
      assert ps == [p] + rest[1..];
      assert p <= s;
      forall i | 0 <= i <= |p| ensures !(sep <= p[i..]) {
        if i == 0 {
          if sep <= p {
            PrefixTrans(sep, p, s);
          }
        } else {
          assert p[i..] == rest[0][i - 1..];
        }
      }
      forall k | 0 <= k < |ps| ensures !Contains(ps[k], sep) {
        if k > 0 {
          assert ps[k] == rest[k];
        }
      }
    }
  }

  /** A character absent from `s` is absent from every piece of its split. */
  lemma {:induction false} SplitOnKeepsAbsent(s: string, sep: string, c: char)
    requires sep != [] && c !in s
    ensures forall k :: 0 <= k < |SplitOn(s, sep)| ==> c !in SplitOn(s, sep)[k]
    decreases |s|
  {
    var ps := SplitOn(s, sep);
    if s == [] {
      assert ps == [[]];
    } else if sep <= s {
      NotInSlice(s, c, |sep|, |s|);
      SplitOnKeepsAbsent(s[|sep|..], sep, c);
      var rest := SplitOn(s[|sep|..], sep);
      assert ps == [[]] + rest;
      forall k | 0 <= k < |ps| ensures c !in ps[k] {
        if k > 0 {
          assert ps[k] == rest[k - 1];
        }
      }
    } else {
      NotInSlice(s, c, 1, |s|);
      SplitOnKeepsAbsent(s[1..], sep, c);
      var rest := SplitOn(s[1..], sep);
      SplitOnChar(s, sep);
      assert c != s[0] && c !in rest[0];
      forall k | 0 <= k < |ps| ensures c !in ps[k] {
        if k > 0 {
          assert ps[k] == rest[k];
        }
      }
    }
  }

  /** Joining pieces and a separator that all lack `c` gives a string that lacks it. */
  lemma {:induction false} JoinKeepsAbsent(ps: seq<string>, sep: string, c: char)
    requires c !in sep && forall k :: 0 <= k < |ps| ==> c !in ps[k]
    ensures c !in Join(ps, sep)
    decreases |ps|
  {
    if |ps| > 1 {
      JoinKeepsAbsent(ps[1..], sep, c);
      assert c !in ps[0];
    } else if |ps| == 1 {
      assert c !in ps[0];
    }
  }

  /** No proper prefix of `sep` is also a suffix of it, so two occurrences can never overlap. */
  predicate BorderFree(sep: string) {
    forall k :: 0 < k < |sep| ==> sep[k..] != sep[..|sep| - k]
  }

  /** A non-empty free piece followed by a border-free separator does not start with the separator. */
  lemma SepNotAtFreePiece(p: string, sep: string, rest: string)
    requires sep != [] && BorderFree(sep) && !Contains(p, sep) && p != []
    ensures !(sep <= p + sep + rest)
  {
    var s := p + sep + rest;
    if |p| >= |sep| {
      assert !(sep <= p[0..]);
      assert s[..|p|] == p;
      assert sep <= s ==> sep <= p;
    } else {
      var k := |p|;
      var mid, border, tail := s[k..|sep|], sep[..|sep| - k], sep[k..];
      assert mid == border;
      assert tail != border;
      assert sep <= s ==> tail == mid;
    }
  }

  /** Splitting a free piece followed by the separator yields that piece first. */
  lemma {:induction false} SplitOnPieceThenSep(p: string, sep: string, rest: string)
    requires sep != [] && BorderFree(sep) && !Contains(p, sep)
    ensures SplitOn(p + sep + rest, sep) == [p] + SplitOn(rest, sep)
    decreases |p|
  {
    var s := p + sep + rest;
    AppendAssoc(p, sep, rest);
    if p == [] {
      assert s == sep + rest;
      DropPrefix(sep, rest);
    } else {
      SepNotAtFreePiece(p, sep, rest);
      NotContainsSuffix(p, 1, sep);
      SplitOnPieceThenSep(p[1..], sep, rest);
      ConsAppend(p, sep + rest);
      AppendAssoc(p[1..], sep, rest);
      ConsSplit(p);
    }
  }

  /** A free string splits into itself. */
  lemma {:induction false} SplitOnFree(p: string, sep: string)
    requires sep != [] && !Contains(p, sep)
    ensures SplitOn(p, sep) == [p]
    decreases |p|
  {
    if p != [] {
      assert !(sep <= p[0..]);
      NotContainsSuffix(p, 1, sep);
      SplitOnFree(p[1..], sep);
      assert [p[0]] + p[1..] == p;
    }
  }

  /** Splitting undoes joining, when the pieces are free of a border-free separator. */
  lemma {:induction false} JoinSplitOn(ps: seq<string>, sep: string)
    requires sep != [] && BorderFree(sep) && ps != []
    requires forall k :: 0 <= k < |ps| ==> !Contains(ps[k], sep)
    ensures SplitOn(Join(ps, sep), sep) == ps
    decreases |ps|
  {
    if |ps| == 1 {
      SplitOnFree(ps[0], sep);
    } else {
      JoinSplitOn(ps[1..], sep);
      SplitOnPieceThenSep(ps[0], sep, Join(ps[1..], sep));
      assert [ps[0]] + ps[1..] == ps;
    }
  }

  // ------------------------------------------------------------------
  // str.splitlines()
  // ------------------------------------------------------------------

  predicate IsLine(l: string) {
    forall k :: 0 <= k < |l| ==> !IsLineBreak(l[k])
  }

  /** s.splitlines(): no empty line after a final break, "\r\n" as one break. */
  function SplitLines(s: string): (lines: seq<string>)
    ensures forall k :: 0 <= k < |lines| ==> IsLine(lines[k])
    ensures s == [] <==> lines == []
    decreases |s|
  {
    if s == [] then []
    else
      var n := Span(s, NotLineBreak);
      if n == |s| then [s]
      else
        var next := if s[n] == '\r' && n + 1 < |s| && s[n + 1] == '\n' then n + 2 else n + 1;
        [s[..n]] + SplitLines(s[next..])
  }

  /** A string without line breaks is one line. */
  lemma SplitLinesOfLine(s: string)
    requires s != [] && IsLine(s)
    ensures SplitLines(s) == [s]
  {
    assert Span(s, NotLineBreak) == |s|;
  }

  // ------------------------------------------------------------------
  // re.sub(d + '([^' + d + ']+)' + d, r'\1', s)
  // ------------------------------------------------------------------

  /**
   * Unwraps `d…d` pairs: at a `d` whose next `d` is at least two characters further, both
   * delimiters go and the text between stays; scanning resumes after the closing `d`.
   */
  function Unwrap(s: string, d: char): (r: string)
    ensures forall c :: c in r ==> c in s
    ensures d !in s ==> r == s
    decreases |s|
  {
    if s == [] then []
    else if s[0] == d then
      var j := IndexFrom(s, d, 1);
      if j > 1 && j < |s| then s[1..j] + Unwrap(s[j + 1..], d)
      else [s[0]] + Unwrap(s[1..], d)
    else [s[0]] + Unwrap(s[1..], d)
  }

  /** Unwrapping only ever removes delimiters: with every delimiter deleted, nothing else has changed. */
  lemma {:induction false} UnwrapThenDelete(s: string, d: char)
    ensures Delete(Unwrap(s, d), d) == Delete(s, d)
    decreases |s|
  {
    if s != [] {
      var j := IndexFrom(s, d, 1);
      if s[0] == d && j > 1 && j < |s| {
        UnwrapPairStep(s, d, j);
        UnwrapThenDelete(s[j + 1..], d);
        DeleteAppend(s[1..j], Unwrap(s[j + 1..], d), d);
        DeletePair(s, d, j);
      } else {
        UnwrapConsStep(s, d);
        UnwrapThenDelete(s[1..], d);
        DeleteConsBoth(s[0], Unwrap(s[1..], d), s[1..], d);
        ConsSplit(s);
      }
    }
  }

  lemma UnwrapPairStep(s: string, d: char, j: nat)
    requires s != [] && s[0] == d && j == IndexFrom(s, d, 1) && 1 < j < |s|
    ensures Unwrap(s, d) == s[1..j] + Unwrap(s[j + 1..], d)
    ensures s[j] == d && d !in s[1..j]
  {
    IndexFromFree(s, d, 1);
  }

  /** No `c` lies between the start of the search and the index found. */
  lemma IndexFromFree(s: string, c: char, i: nat)
    requires i <= |s|
    ensures c !in s[i..IndexFrom(s, c, i)]
  {
    var j := IndexFrom(s, c, i);
    forall m | 0 <= m < j - i ensures s[i..j][m] != c {
      assert s[i..j][m] == s[i + m];
    }
  }

  lemma UnwrapConsStep(s: string, d: char)
    requires s != [] && !(s[0] == d && 1 < IndexFrom(s, d, 1) < |s|)
    ensures Unwrap(s, d) == [s[0]] + Unwrap(s[1..], d)
  {
  }

  lemma DeleteConsBoth(c: char, u: string, t: string, d: char)
    requires Delete(u, d) == Delete(t, d)
    ensures Delete([c] + u, d) == Delete([c] + t, d)
  {
    DeleteCons(c, u, d);
    DeleteCons(c, t, d);
  }

  lemma DeleteCons(c: char, t: string, d: char)
    ensures Delete([c] + t, d) == (if c == d then [] else [c]) + Delete(t, d)
  {
    ConsAppend([c], t);
  }

  /** Deleting the delimiters of a pair `d mid d` leaves `mid`, when `mid` holds no delimiter. */
  lemma DeletePair(s: string, d: char, j: nat)
    requires 1 < j < |s| && s[0] == d && s[j] == d && d !in s[1..j]
    ensures Delete(s, d) == s[1..j] + Delete(s[j + 1..], d)
  {
    var mid := s[1..j];
    DropNext(s, 0);
    DeleteCons(s[0], s[1..], d);
    SplitAt(s, 1, j);
    DeleteAppend(mid, s[j..], d);
    DropNext(s, j);
    DeleteCons(s[j], s[j + 1..], d);
  }

  // ------------------------------------------------------------------
  // str.rfind
  // ------------------------------------------------------------------

  /** s.rfind(c): the index of the last `c`, or -1 when there is none. */
  function RFind(s: string, c: char): (i: int)
    ensures -1 <= i < |s|
    ensures i >= 0 ==> s[i] == c && c !in s[i + 1..]
    ensures i == -1 <==> c !in s
    decreases |s|
  {
    if s == [] then -1
    else if s[|s| - 1] == c then |s| - 1
    else
      var i := RFind(s[..|s| - 1], c);
      DropLastAfter(s, i + 1);
      i
  }

  lemma DropLastAfter<T>(s: seq<T>, j: nat)
    requires s != [] && j <= |s|
    ensures s == s[..|s| - 1] + [s[|s| - 1]]
    ensures j < |s| ==> s[j..] == s[..|s| - 1][j..] + [s[|s| - 1]]
  {
  }

  /** The last `c` of `p + [c] + d`, when `d` holds none, is the one after `p`. */
  lemma RFindLast(p: string, c: char, d: string)
    requires c !in d
    ensures RFind(p + [c] + d, c) == |p|
  {
    var s := p + [c] + d;
    assert s[|p|] == c;
    assert s[|p| + 1..] == d;
  }

  /** Two strings that end `c` followed by a `c`-free field agree on the field and on what precedes it. */
  lemma LastFieldSplit(p1: string, d1: string, p2: string, d2: string, c: char)
    requires c !in d1 && c !in d2 && p1 + [c] + d1 == p2 + [c] + d2
    ensures p1 == p2 && d1 == d2
  {
    RFindLast(p1, c, d1);
    RFindLast(p2, c, d2);
    var s := p1 + [c] + d1;
    assert p1 == s[..|p1|] && p2 == s[..|p2|];
    assert d1 == s[|p1| + 1..] && d2 == s[|p2| + 1..];
  }

  // ------------------------------------------------------------------
  // str(int)
  // ------------------------------------------------------------------

  function DigitChar(d: nat): char
    requires d < 10
  {
    ('0' as int + d) as char
  }

  /** str(n) for n >= 0: the decimal digits, most significant first, no leading zero. */
  function NatToString(n: nat): string
    decreases n
  {
    if n < 10 then [DigitChar(n)] else NatToString(n / 10) + [DigitChar(n % 10)]
  }

  /** str(n): a '-' in front of the digits of a negative number. */
  function IntToString(n: int): string {
    if n < 0 then "-" + NatToString(-n) else NatToString(n)
  }

  /** str(n) of a natural number is a non-empty run of decimal digits. */
  lemma {:induction false} NatToStringDigits(n: nat)
    ensures var r := NatToString(n); r != [] && forall k :: 0 <= k < |r| ==> IsAsciiDigit(r[k])
    decreases n
  {
    if n >= 10 {
      NatToStringDigits(n / 10);
    }
  }

  /** str(n) is non-empty, and all digits but for a leading '-' when n is negative. */
  lemma IntToStringDigits(n: int)
    ensures var r := IntToString(n);
      && r != []
      && (n < 0 <==> r[0] == '-')
      && forall k :: 0 <= k < |r| ==> IsAsciiDigit(r[k]) || (k == 0 && r[k] == '-')
  {
    if n < 0 {
      NatToStringDigits(-n);
      assert IntToString(n)[1..] == NatToString(-n);
    } else {
      NatToStringDigits(n);
      assert IsAsciiDigit(NatToString(n)[0]);
    }
  }

  /** int(s) for a string of decimal digits. */
  function ParseNat(s: string): nat
    decreases |s|
  {
    if s == [] then 0
    else
      var d := s[|s| - 1] as int - '0' as int;
      ParseNat(s[..|s| - 1]) * 10 + (if 0 <= d < 10 then d else 0)
  }

  /** int(s) for the output of str(n). */
  function ParseInt(s: string): int {
    if s != [] && s[0] == '-' then -(ParseNat(s[1..]) as int) else ParseNat(s)
  }

  lemma {:induction false} ParseNatToString(n: nat)
    ensures ParseNat(NatToString(n)) == n
    decreases n
  {
    if n >= 10 {
      ParseNatToString(n / 10);
      var s := NatToString(n / 10) + [DigitChar(n % 10)];
      assert s[..|s| - 1] == NatToString(n / 10);
    }
  }

  lemma ParseIntToString(n: int)
    ensures ParseInt(IntToString(n)) == n
  {
    if n < 0 {
      ParseNatToString(-n);
      assert ("-" + NatToString(-n))[1..] == NatToString(-n);
    } else {
      ParseNatToString(n);
      IntToStringDigits(n);
    }
  }

  /** Different numbers print differently. */
  lemma NatToStringInjective(m: nat, n: nat)
    requires NatToString(m) == NatToString(n)
    ensures m == n
  {
    ParseNatToString(m);
    ParseNatToString(n);
  }

  lemma IntToStringInjective(m: int, n: int)
    requires IntToString(m) == IntToString(n)
    ensures m == n
  {
    ParseIntToString(m);
    ParseIntToString(n);
  }

  // ------------------------------------------------------------------
  // os.path.basename
  // ------------------------------------------------------------------

  /** posixpath.basename(p): what follows the last '/'. */
  function Basename(p: string): (b: string)
    ensures '/' !in b
    ensures |b| <= |p| && b == p[|p| - |b|..]
    ensures '/' !in p ==> b == p
  {
    p[RFind(p, '/') + 1..]
  }

  /** The basename of `dir/name` is `name`. */
  lemma BasenameOfPath(dir: string, name: string)
    requires '/' !in name
    ensures Basename(dir + "/" + name) == name
  {
    RFindLast(dir, '/', name);
    assert (dir + "/" + name)[|dir| + 1..] == name;
  }
}
