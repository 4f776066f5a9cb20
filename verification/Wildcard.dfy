// The wildcard syntax of sim/wildcard.go: what a pattern means, and the greedy
// matcher that backtracks only to its last star.

module WildcardPatterns {

  /** The parts of the syntax that differ between clouds. */
  datatype Wildcard = Wildcard(anyOne: bool, escapes: string, foldCase: bool)

  datatype Token = Literal(r: char) | Star | One

  /** One step round a rune's case-folding orbit, as unicode.SimpleFold takes it. */
  type SimpleFold = char -> char

  function Iterate(fold: SimpleFold, n: nat, a: char): (r: char) {
    if n == 0 then a else fold(Iterate(fold, n - 1, a))
  }

  ghost predicate ComesBack(fold: SimpleFold, a: char) {
    exists n: nat :: n > 0 && Iterate(fold, n, a) == a
  }

  /** Every orbit comes back to its start, which the Unicode tables guarantee. */
  ghost predicate Cyclic(fold: SimpleFold) {
    forall a: char :: ComesBack(fold, a)
  }

  /** Two runes are the same character: equal, or on one orbit when case folds. */
  ghost predicate SameCharacter(w: Wildcard, fold: SimpleFold, a: char, b: char) {
    a == b || (w.foldCase && exists k: nat :: Iterate(fold, k, a) == b)
  }

  /**
   * The meaning of a token sequence: the tokens from i on match all of v from j
   * on. A star absorbs as many characters as it likes, possibly zero; every other
   * token takes one.
   */
  ghost predicate MatchesFrom(w: Wildcard, fold: SimpleFold, p: seq<Token>, i: nat, v: string, j: nat)
    requires i <= |p| && j <= |v|
    decreases |p| - i
  {
    if i == |p| then
      j == |v|
    else match p[i]
      case Star => var rest := i + 1; exists k: nat :: j <= k <= |v| && MatchesFrom(w, fold, p, rest, v, k)
      case One => j < |v| && MatchesFrom(w, fold, p, i + 1, v, j + 1)
      case Literal(r) => j < |v| && SameCharacter(w, fold, r, v[j]) && MatchesFrom(w, fold, p, i + 1, v, j + 1)
  }

  ghost predicate Matches(w: Wildcard, fold: SimpleFold, p: seq<Token>, v: string) {
    MatchesFrom(w, fold, p, 0, v, 0)
  }

  /** A backslash that makes the next character literal. */
  predicate Escapes(w: Wildcard, pattern: string, i: nat)
    requires i < |pattern|
  {
    pattern[i] == '\\' && i + 1 < |pattern| && pattern[i + 1] in w.escapes
  }

  /** How a pattern reads from position i on. */
  function TokensFrom(w: Wildcard, pattern: string, i: nat): (out: seq<Token>)
    requires i <= |pattern|
    decreases |pattern| - i
  {
    if i == |pattern| then
      []
    else if Escapes(w, pattern, i) then
      [Literal(pattern[i + 1])] + TokensFrom(w, pattern, i + 2)
    else if pattern[i] == '*' then
      [Star] + TokensFrom(w, pattern, i + 1)
    else if w.anyOne && pattern[i] == '?' then
      [One] + TokensFrom(w, pattern, i + 1)
    else
      [Literal(pattern[i])] + TokensFrom(w, pattern, i + 1)
  }

  function Tokens(w: Wildcard, pattern: string): (out: seq<Token>) {
    TokensFrom(w, pattern, 0)
  }

  lemma TokenMoves(out: seq<Token>, rest: seq<Token>)
    requires rest != []
    ensures out + rest == (out + [rest[0]]) + rest[1..]
  {
  }

  method TokensOf(w: Wildcard, pattern: string) returns (out: seq<Token>)
    ensures out == Tokens(w, pattern)
  {
    out := [];
    var i := 0;
    while i < |pattern|
      invariant 0 <= i <= |pattern|
      invariant out + TokensFrom(w, pattern, i) == Tokens(w, pattern)
    {
      TokenMoves(out, TokensFrom(w, pattern, i));
      if Escapes(w, pattern, i) {
        out := out + [Literal(pattern[i + 1])];
        i := i + 1;
      } else if pattern[i] == '*' {
        out := out + [Star];
      } else if w.anyOne && pattern[i] == '?' {
        out := out + [One];
      } else {
        out := out + [Literal(pattern[i])];
      }
      i := i + 1;
    }
  }

  lemma {:induction false} IterateSum(fold: SimpleFold, m: nat, n: nat, a: char)
    ensures Iterate(fold, m + n, a) == Iterate(fold, m, Iterate(fold, n, a))
    decreases m
  {
    if m > 0 {
      IterateSum(fold, m - 1, n, a);
    }
  }

  ghost predicate Avoids(fold: SimpleFold, a: char, b: char, n: nat) {
    forall j: nat :: j < n ==> Iterate(fold, j, a) != b
  }

  lemma {:induction false} LapRepeats(fold: SimpleFold, a: char, lap: nat, b: char, k: nat)
    requires lap > 0 && Iterate(fold, lap, a) == a && Avoids(fold, a, b, lap)
    ensures Iterate(fold, k, a) != b
    decreases k
  {
    if k >= lap {
      IterateSum(fold, k - lap, lap, a);
      LapRepeats(fold, a, lap, b, k - lap);
    }
  }

  /** One lap of an orbit visits all of it. */
  lemma LapVisitsOrbit(fold: SimpleFold, a: char, lap: nat, b: char)
    requires lap > 0 && Iterate(fold, lap, a) == a && Avoids(fold, a, b, lap)
    ensures !exists k: nat :: Iterate(fold, k, a) == b
  {
    forall k: nat
      ensures Iterate(fold, k, a) != b
    {
      LapRepeats(fold, a, lap, b, k);
    }
  }

  method Same(w: Wildcard, fold: SimpleFold, a: char, b: char) returns (same: bool)
    requires Cyclic(fold)
    ensures same <==> SameCharacter(w, fold, a, b)
  {
    if a == b {
      return true;
    }
    if !w.foldCase {
      return false;
    }
    assert ComesBack(fold, a);
    ghost var bound: nat :| bound > 0 && Iterate(fold, bound, a) == a;
    var f := fold(a);
    ghost var i: nat := 1;
    assert Iterate(fold, 1, a) == fold(Iterate(fold, 0, a));
    while f != a
      invariant 1 <= i <= bound
      invariant f == Iterate(fold, i, a)
      invariant Avoids(fold, a, b, i)
      decreases bound - i
    {
      if f == b {
        return true;
      }
      f := fold(f);
      i := i + 1;
    }
    LapVisitsOrbit(fold, a, i, b);
    return false;
  }

  ghost predicate Starless(p: seq<Token>, from: nat, to: nat)
    requires to <= |p|
  {
    forall i :: from <= i < to ==> p[i] != Star
  }

  /** A starless run of tokens consumes exactly its own length. */
  lemma {:induction false} StarlessRunConsumesItsLength(w: Wildcard, fold: SimpleFold, p: seq<Token>, i: nat,
                                                        v: string, j: nat, n: nat)
    requires i + n <= |p| && j <= |v| && Starless(p, i, i + n)
    requires MatchesFrom(w, fold, p, i, v, j)
    ensures j + n <= |v| && MatchesFrom(w, fold, p, i + n, v, j + n)
    decreases n
  {
    if n > 0 {
      StarlessRunConsumesItsLength(w, fold, p, i + 1, v, j + 1, n - 1);
    }
  }

  /** Only stars match nothing. */
  lemma {:induction false} OnlyStarsMatchNothing(w: Wildcard, fold: SimpleFold, p: seq<Token>, i: nat, v: string)
    requires i <= |p|
    ensures MatchesFrom(w, fold, p, i, v, |v|) <==> forall n :: i <= n < |p| ==> p[n] == Star
    decreases |p| - i
  {
    if i < |p| {
      OnlyStarsMatchNothing(w, fold, p, i + 1, v);
    }
  }

  /** A match that resumes after the given star, past the marked position. */
  ghost predicate MatchesLater(w: Wildcard, fold: SimpleFold, p: seq<Token>, v: string, star: nat, mark: nat)
    requires star < |p|
  {
    var rest := star + 1;
    exists m: nat :: mark < m <= |v| && MatchesFrom(w, fold, p, rest, v, m)
  }

  /** What remains from a star on splits into "absorb nothing" and "absorb more". */
  lemma StarSplits(w: Wildcard, fold: SimpleFold, p: seq<Token>, v: string, star: nat, mark: nat)
    requires star < |p| && p[star] == Star && mark <= |v|
    ensures MatchesFrom(w, fold, p, star, v, mark)
       <==> MatchesFrom(w, fold, p, star + 1, v, mark) || MatchesLater(w, fold, p, v, star, mark)
  {
  }

  /**
   * The greedy step: when a second star is reached, any match that would
   * backtrack to the first star is also a match from the second one on.
   */
  lemma LaterMatchReachesHere(w: Wildcard, fold: SimpleFold, p: seq<Token>, v: string,
                              star: nat, mark: nat, pi: nat, vi: nat)
    requires star < pi <= |p| && mark <= vi <= |v| && vi - mark == pi - star - 1
    requires Starless(p, star + 1, pi)
    requires MatchesLater(w, fold, p, v, star, mark)
    ensures vi < |v|
    ensures pi < |p| && p[pi] == Star ==> MatchesFrom(w, fold, p, pi, v, vi)
  {
    var m: nat :| mark < m <= |v| && MatchesFrom(w, fold, p, star + 1, v, m);
    StarlessRunConsumesItsLength(w, fold, p, star + 1, v, m, pi - star - 1);
    if pi < |p| && p[pi] == Star {
      var k: nat :| m + (pi - star - 1) <= k <= |v| && MatchesFrom(w, fold, p, pi + 1, v, k);
      assert vi <= k;
    }
  }

  /** What the greedy loop knows about the whole question at each step. */
  ghost predicate Undecided(w: Wildcard, fold: SimpleFold, p: seq<Token>, v: string,
                            pi: nat, vi: nat, star: int, mark: nat)
    requires pi <= |p| && vi <= |v|
  {
    && -1 <= star < pi
    && mark <= vi
    && (star >= 0 ==> p[star] == Star && vi - mark == pi - star - 1 && Starless(p, star + 1, pi))
    && (Matches(w, fold, p, v) <==>
        MatchesFrom(w, fold, p, pi, v, vi) || (star >= 0 && MatchesLater(w, fold, p, v, star, mark)))
  }

  lemma StarStep(w: Wildcard, fold: SimpleFold, p: seq<Token>, v: string, pi: nat, vi: nat, star: int, mark: nat)
    requires pi < |p| && vi < |v| && p[pi] == Star
    requires Undecided(w, fold, p, v, pi, vi, star, mark)
    ensures Undecided(w, fold, p, v, pi + 1, vi, pi, vi)
  {
    StarSplits(w, fold, p, v, pi, vi);
    if star >= 0 && MatchesLater(w, fold, p, v, star, mark) {
      LaterMatchReachesHere(w, fold, p, v, star, mark, pi, vi);
    }
  }

  lemma OneCharacterStep(w: Wildcard, fold: SimpleFold, p: seq<Token>, v: string, pi: nat, vi: nat, star: int, mark: nat)
    requires pi < |p| && vi < |v| && p[pi] != Star
    requires p[pi].Literal? ==> SameCharacter(w, fold, p[pi].r, v[vi])
    requires Undecided(w, fold, p, v, pi, vi, star, mark)
    ensures Undecided(w, fold, p, v, pi + 1, vi + 1, star, mark)
  {
  }

  lemma BacktrackStep(w: Wildcard, fold: SimpleFold, p: seq<Token>, v: string, pi: nat, vi: nat, star: nat, mark: nat)
    requires pi <= |p| && vi < |v|
    requires pi < |p| ==> p[pi].Literal? && !SameCharacter(w, fold, p[pi].r, v[vi])
    requires Undecided(w, fold, p, v, pi, vi, star, mark)
    ensures Undecided(w, fold, p, v, star + 1, mark + 1, star, mark + 1)
  {
    assert !MatchesFrom(w, fold, p, pi, v, vi);
    if MatchesLater(w, fold, p, v, star, mark) {
      var m: nat :| mark < m <= |v| && MatchesFrom(w, fold, p, star + 1, v, m);
      assert m == mark + 1 || mark + 1 < m;
    }
  }

  /** Once the string is used up, the answer is whether only stars remain. */
  lemma StringExhausted(w: Wildcard, fold: SimpleFold, p: seq<Token>, v: string, pi: nat, star: int, mark: nat)
    requires pi <= |p| && Undecided(w, fold, p, v, pi, |v|, star, mark)
    ensures Matches(w, fold, p, v) <==> forall i :: pi <= i < |p| ==> p[i] == Star
  {
    if star >= 0 && MatchesLater(w, fold, p, v, star, mark) {
      LaterMatchReachesHere(w, fold, p, v, star, mark, pi, |v|);
    }
    OnlyStarsMatchNothing(w, fold, p, pi, v);
  }

  /** The matcher decides the declarative meaning, both ways, for every pattern and string. */
  method Match(w: Wildcard, fold: SimpleFold, pattern: string, s: string) returns (matched: bool)
    requires Cyclic(fold)
    ensures matched <==> Matches(w, fold, Tokens(w, pattern), s)
  {
    var p := TokensOf(w, pattern);
    var v := s;
    var pi, vi, star, mark := 0, 0, -1, 0;
    while vi < |v|
      invariant 0 <= pi <= |p| && 0 <= vi <= |v| && 0 <= mark
      invariant Undecided(w, fold, p, v, pi, vi, star, mark)
      decreases |p| - star, |v| - mark, |v| - vi
    {
      var here := false;
      if pi < |p| && p[pi].Literal? {
        here := Same(w, fold, p[pi].r, v[vi]);
      }
      if pi < |p| && p[pi] == Star {
        StarStep(w, fold, p, v, pi, vi, star, mark);
        star, mark := pi, vi;
        pi := pi + 1;
      } else if pi < |p| && (p[pi] == One || here) {
        OneCharacterStep(w, fold, p, v, pi, vi, star, mark);
        pi := pi + 1;
        vi := vi + 1;
      } else if star >= 0 {
        BacktrackStep(w, fold, p, v, pi, vi, star, mark);
        pi := star + 1;
        mark := mark + 1;
        vi := mark;
      } else {
        return false;
      }
    }
    StringExhausted(w, fold, p, v, pi, star, mark);
    ghost var tail := pi;
    while pi < |p| && p[pi] == Star
      invariant tail <= pi <= |p|
      invariant forall i :: tail <= i < pi ==> p[i] == Star
    {
      pi := pi + 1;
    }
    return pi == |p|;
  }

  /** A literal string written as a pattern: a backslash before each character that can take one. */
  function Quote(w: Wildcard, s: string): (q: string) {
    if s == [] then []
    else (if s[0] in w.escapes then ['\\', s[0]] else [s[0]]) + Quote(w, s[1..])
  }

  /** Every character of the string that has a meaning in the syntax can take a backslash. */
  predicate Quotable(w: Wildcard, s: string) {
    ('*' in s ==> '*' in w.escapes) && (w.anyOne && '?' in s ==> '?' in w.escapes)
  }

  function Literals(s: string): (p: seq<Token>) {
    seq(|s|, i requires 0 <= i < |s| => Literal(s[i]))
  }

  /** Quoting works exactly for the quotable strings; a backslash needs no quoting where the syntax has no quoted backslash. */
  lemma {:induction false} QuotedReadsAsLiterals(w: Wildcard, before: string, s: string)
    ensures TokensFrom(w, before + Quote(w, s), |before|) == Literals(s) <==> Quotable(w, s)
    decreases |s|
  {
    var pattern := before + Quote(w, s);
    if s == [] {
      assert pattern == before;
    } else {
      var head := if s[0] in w.escapes then ['\\', s[0]] else [s[0]];
      var rest := Quote(w, s[1..]);
      assert pattern == (before + head) + rest;
      QuotedReadsAsLiterals(w, before + head, s[1..]);
      assert Literals(s) == [Literal(s[0])] + Literals(s[1..]);
      assert s[1..] != [] ==> rest[0] == if s[1] in w.escapes then '\\' else s[1];
      assert Escapes(w, pattern, |before|) <==> s[0] in w.escapes;
      assert s == [s[0]] + s[1..];
      var tokens := TokensFrom(w, pattern, |before|);
      var first := if s[0] in w.escapes then Literal(s[0]) else if s[0] == '*' then Star else if w.anyOne && s[0] == '?' then One else Literal(s[0]);
      assert tokens == [first] + TokensFrom(w, pattern, |before + head|);
      assert tokens == Literals(s) <==> first == Literal(s[0]) && tokens[1..] == Literals(s[1..]) by {
        assert tokens[1..] == TokensFrom(w, pattern, |before + head|);
        assert Literals(s)[1..] == Literals(s[1..]);
      }
    }
  }

  lemma {:induction false} LiteralsMatchThemselves(w: Wildcard, fold: SimpleFold, s: string, t: string, i: nat)
    requires i <= |s| && i <= |t|
    ensures MatchesFrom(w, fold, Literals(s), i, t, i) <==>
      |s| == |t| && forall n :: i <= n < |s| ==> SameCharacter(w, fold, s[n], t[n])
    decreases |s| - i
  {
    if i < |s| && i < |t| {
      LiteralsMatchThemselves(w, fold, s, t, i + 1);
    }
  }

  /** Escaping round-trips: a quoted string is the pattern of that string, up to case where case folds, and of no other. */
  lemma QuotedMatchesExactlyItself(w: Wildcard, fold: SimpleFold, s: string, t: string)
    requires Quotable(w, s)
    ensures Matches(w, fold, Tokens(w, Quote(w, s)), t) <==> |s| == |t| && forall n :: 0 <= n < |s| ==> SameCharacter(w, fold, s[n], t[n])
    ensures !w.foldCase ==> (Matches(w, fold, Tokens(w, Quote(w, s)), t) <==> s == t)
  {
    assert [] + Quote(w, s) == Quote(w, s);
    QuotedReadsAsLiterals(w, [], s);
    LiteralsMatchThemselves(w, fold, s, t, 0);
  }

  /** A string with a star the syntax cannot quote is, quoted, also a pattern of other strings. */
  lemma UnquotableMatchesMore(w: Wildcard, fold: SimpleFold)
    requires '*' !in w.escapes
    ensures Matches(w, fold, Tokens(w, Quote(w, "*")), "") && Matches(w, fold, Tokens(w, Quote(w, "*")), "*")
  {
    assert Quote(w, "*") == "*";
    assert Tokens(w, "*") == [Star];
    assert MatchesFrom(w, fold, [Star], 1, "", 0) && MatchesFrom(w, fold, [Star], 1, "*", 1);
  }

  // What each character of a pattern reads as, and what patterns then match.

  /** No backslash of the pattern makes its next character literal. */
  predicate Unescaped(w: Wildcard, pattern: string) {
    forall i :: 0 <= i < |pattern| ==> !Escapes(w, pattern, i)
  }

  lemma {:induction false} UnescapedReadsFrom(w: Wildcard, pattern: string, i: nat, k: nat)
    requires Unescaped(w, pattern) && i <= k <= |pattern|
    ensures |TokensFrom(w, pattern, i)| == |pattern| - i
    ensures k < |pattern| ==>
      TokensFrom(w, pattern, i)[k - i] ==
        if pattern[k] == '*' then Star else if w.anyOne && pattern[k] == '?' then One else Literal(pattern[k])
    decreases |pattern| - i
  {
    if i < |pattern| {
      assert !Escapes(w, pattern, i);
      UnescapedReadsFrom(w, pattern, i + 1, if k == i then i + 1 else k);
    }
  }

  /** A pattern without escapes reads character by character: '*' as a star, '?' as any one where it is, everything else as itself. */
  lemma UnescapedReadsPlaceByPlace(w: Wildcard, pattern: string)
    requires Unescaped(w, pattern)
    ensures |Tokens(w, pattern)| == |pattern|
    ensures forall k :: 0 <= k < |pattern| ==>
      Tokens(w, pattern)[k] ==
        if pattern[k] == '*' then Star else if w.anyOne && pattern[k] == '?' then One else Literal(pattern[k])
  {
    hide TokensFrom, Unescaped;
    UnescapedReadsFrom(w, pattern, 0, 0);
    forall k | 0 <= k < |pattern|
      ensures Tokens(w, pattern)[k] ==
        if pattern[k] == '*' then Star else if w.anyOne && pattern[k] == '?' then One else Literal(pattern[k])
    {
      UnescapedReadsFrom(w, pattern, 0, k);
    }
  }

  /** A character written after the quoted string is not taken for something a last backslash of it escapes. */
  predicate EndsClear(w: Wildcard, s: string, c: char) {
    s != [] && s[|s| - 1] == '\\' && c in w.escapes ==> '\\' in w.escapes
  }

  /** How one character is quoted. */
  function QuoteOne(w: Wildcard, c: char): (q: string)
    ensures q != []
  {
    if c in w.escapes then ['\\', c] else [c]
  }

  lemma QuoteStarts(w: Wildcard, s: string)
    requires s != []
    ensures Quote(w, s) == QuoteOne(w, s[0]) + Quote(w, s[1..])
  {
  }

  lemma NextIsNotEscaped(w: Wildcard, before: string, c: char, after: string)
    requires c !in w.escapes && after != [] && c == '\\' ==> after[0] !in w.escapes
    ensures Escapes(w, before + QuoteOne(w, c) + after, |before|) <==> c in w.escapes
  {
    var pattern, i := before + QuoteOne(w, c) + after, |before|;
    assert pattern[i] == QuoteOne(w, c)[0];
    if c in w.escapes {
      assert pattern[i + 1] == c;
    } else {
      assert after != [] ==> pattern[i + 1] == after[0];
      assert after == [] ==> |pattern| == i + 1;
    }
  }

  lemma QuotedCharacterReads(w: Wildcard, before: string, c: char, after: string)
    requires c == '*' || (w.anyOne && c == '?') ==> c in w.escapes
    requires c !in w.escapes && after != [] && c == '\\' ==> after[0] !in w.escapes
    ensures var pattern := before + QuoteOne(w, c) + after;
      TokensFrom(w, pattern, |before|) == [Literal(c)] + TokensFrom(w, pattern, |before| + |QuoteOne(w, c)|)
  {
    var pattern, i := before + QuoteOne(w, c) + after, |before|;
    NextIsNotEscaped(w, before, c, after);
    assert if c in w.escapes then pattern[i + 1] == c else pattern[i] == c;
  }

  /** What stands after the first character of a quoted string that is not quoted itself. */
  lemma AfterTheFirst(w: Wildcard, s: string, rest: string)
    requires s != [] && (rest != [] ==> EndsClear(w, s, rest[0]))
    ensures var after := Quote(w, s[1..]) + rest;
      s[0] !in w.escapes && after != [] && s[0] == '\\' ==> after[0] !in w.escapes
  {
    if s[1..] != [] {
      QuoteStarts(w, s[1..]);
    }
  }

  lemma Regrouped(before: string, head: string, q: string, rest: string)
    ensures before + (head + q) + rest == (before + head) + q + rest == before + head + (q + rest)
  {
  }

  lemma EmptyReads(w: Wildcard, s: string)
    requires s == []
    ensures Quote(w, s) == [] && Literals(s) == []
  {
  }

  /** The rest of a string that can be quoted before c can be quoted before c. */
  lemma TailQuotes(w: Wildcard, s: string, rest: string)
    requires s != [] && Quotable(w, s) && (rest != [] ==> EndsClear(w, s, rest[0]))
    ensures Quotable(w, s[1..]) && (rest != [] ==> EndsClear(w, s[1..], rest[0]))
    ensures s[0] == '*' || (w.anyOne && s[0] == '?') ==> s[0] in w.escapes
    ensures Literals(s) == [Literal(s[0])] + Literals(s[1..])
  {
    assert s[1..] != [] ==> s[1..][|s[1..]| - 1] == s[|s| - 1];
  }

  /** A quoted string reads as its literals wherever it stands, and what follows reads on from there. */
  lemma {:induction false} QuotedReadsInPlace(w: Wildcard, before: string, s: string, rest: string)
    requires Quotable(w, s) && (rest != [] ==> EndsClear(w, s, rest[0]))
    ensures var pattern := before + Quote(w, s) + rest;
      TokensFrom(w, pattern, |before|) == Literals(s) + TokensFrom(w, pattern, |before| + |Quote(w, s)|)
    decreases |s|
  {
    hide TokensFrom, QuoteOne, Quote, Quotable, EndsClear, Literals;
    if s == [] {
      EmptyReads(w, s);
    } else {
      var head, tail := QuoteOne(w, s[0]), s[1..];
      QuoteStarts(w, s);
      TailQuotes(w, s, rest);
      AfterTheFirst(w, s, rest);
      Regrouped(before, head, Quote(w, tail), rest);
      QuotedReadsInPlace(w, before + head, tail, rest);
      QuotedCharacterReads(w, before, s[0], Quote(w, tail) + rest);
    }
  }

  lemma WildcardReads(w: Wildcard, pattern: string, k: nat)
    requires k < |pattern| && (pattern[k] == '*' || (pattern[k] == '?' && w.anyOne))
    ensures TokensFrom(w, pattern, k) == [if pattern[k] == '*' then Star else One] + TokensFrom(w, pattern, k + 1)
    ensures TokensFrom(w, pattern, |pattern|) == []
  {
  }

  /** Two quoted strings with a wildcard between them. */
  lemma WildcardBetween(w: Wildcard, s: string, c: char, t: string)
    requires Quotable(w, s) && Quotable(w, t) && EndsClear(w, s, c) && (c == '*' || (c == '?' && w.anyOne))
    ensures Tokens(w, Quote(w, s) + [c] + Quote(w, t)) == Literals(s) + [if c == '*' then Star else One] + Literals(t)
  {
    hide TokensFrom, Quote, Quotable, EndsClear, Literals;
    var q, r := Quote(w, s), Quote(w, t);
    var pattern := q + [c] + r;
    assert pattern == [] + q + ([c] + r) && ([c] + r)[0] == c;
    QuotedReadsInPlace(w, [], s, [c] + r);
    assert pattern == (q + [c]) + r + [];
    QuotedReadsInPlace(w, q + [c], t, []);
    WildcardReads(w, pattern, |q|);
    assert |q + [c]| == |q| + 1 && |q| + 1 + |r| == |pattern|;
  }

  /** v has the characters of s from j on. */
  ghost predicate HasAt(w: Wildcard, fold: SimpleFold, s: string, v: string, j: nat) {
    j + |s| <= |v| && forall n :: 0 <= n < |s| ==> SameCharacter(w, fold, s[n], v[j + n])
  }

  /** A run of literals matches its characters and leaves the rest. */
  lemma {:induction false} LiteralsThen(w: Wildcard, fold: SimpleFold, p: seq<Token>, i: nat, s: string, v: string, j: nat)
    requires i + |s| <= |p| && p[i..i + |s|] == Literals(s) && j <= |v|
    ensures MatchesFrom(w, fold, p, i, v, j) <==> HasAt(w, fold, s, v, j) && MatchesFrom(w, fold, p, i + |s|, v, j + |s|)
    decreases |s|
  {
    if s != [] {
      var tail := s[1..];
      assert p[i] == p[i..i + |s|][0] == Literal(s[0]);
      assert p[i + 1..i + 1 + |tail|] == p[i..i + |s|][1..] == Literals(tail);
      if j < |v| {
        LiteralsThen(w, fold, p, i + 1, tail, v, j + 1);
        assert HasAt(w, fold, s, v, j) <==> SameCharacter(w, fold, s[0], v[j]) && HasAt(w, fold, tail, v, j + 1) by {
          assert forall n :: 0 <= n < |tail| ==> tail[n] == s[n + 1];
          if SameCharacter(w, fold, s[0], v[j]) && HasAt(w, fold, tail, v, j + 1) {
            forall n | 0 <= n < |s|
              ensures SameCharacter(w, fold, s[n], v[j + n])
            {
              assert n > 0 ==> s[n] == tail[n - 1];
            }
          }
        }
      }
    }
  }

  lemma Sliced(s: string, token: Token, t: string)
    ensures var p := Literals(s) + [token] + Literals(t);
      && |p| == |s| + 1 + |t| && p[0..|s|] == Literals(s) && p[|s|] == token && p[|s| + 1..|s| + 1 + |t|] == Literals(t)
  {
  }

  lemma HasRoom(w: Wildcard, fold: SimpleFold, s: string, v: string, j: nat)
    ensures HasAt(w, fold, s, v, j) ==> j + |s| <= |v|
  {
  }

  /** A last run of literals matches the end of the string. */
  lemma LiteralsLast(w: Wildcard, fold: SimpleFold, p: seq<Token>, i: nat, t: string, v: string, j: nat)
    requires i + |t| == |p| && p[i..i + |t|] == Literals(t) && j <= |v|
    ensures MatchesFrom(w, fold, p, i, v, j) <==> j + |t| == |v| && HasAt(w, fold, t, v, j)
  {
    hide HasAt, SameCharacter, Literals;
    LiteralsThen(w, fold, p, i, t, v, j);
    HasRoom(w, fold, t, v, j);
  }

  lemma OneStep(w: Wildcard, fold: SimpleFold, p: seq<Token>, i: nat, v: string, j: nat)
    requires i < |p| && p[i] == One && j <= |v|
    ensures MatchesFrom(w, fold, p, i, v, j) <==> j < |v| && MatchesFrom(w, fold, p, i + 1, v, j + 1)
  {
  }

  /** With '?' for any one, s?t matches exactly the strings that begin with s, end with t and have one character between. */
  lemma QuestionMarkTakesExactlyOne(w: Wildcard, fold: SimpleFold, s: string, t: string, v: string)
    requires w.anyOne && Quotable(w, s) && Quotable(w, t) && EndsClear(w, s, '?')
    ensures Matches(w, fold, Tokens(w, Quote(w, s) + "?" + Quote(w, t)), v) <==>
      |v| == |s| + 1 + |t| && HasAt(w, fold, s, v, 0) && HasAt(w, fold, t, v, |s| + 1)
  {
    hide Quotable, EndsClear, HasAt, MatchesFrom, Tokens, Quote, Literals;
    WildcardBetween(w, s, '?', t);
    var p := Literals(s) + [One] + Literals(t);
    Sliced(s, One, t);
    LiteralsThen(w, fold, p, 0, s, v, 0);
    HasRoom(w, fold, s, v, 0);
    if |s| <= |v| {
      OneStep(w, fold, p, |s|, v, |s|);
      if |s| < |v| {
        LiteralsLast(w, fold, p, |s| + 1, t, v, |s| + 1);
      }
    }
  }

  lemma StarAbsorbs(w: Wildcard, fold: SimpleFold, p: seq<Token>, i: nat, v: string, j: nat)
    requires i < |p| && p[i] == Star && j <= |v|
    ensures var rest := i + 1;
      MatchesFrom(w, fold, p, i, v, j) <==> exists k: nat :: j <= k <= |v| && MatchesFrom(w, fold, p, rest, v, k)
  {
    StarSplits(w, fold, p, v, i, j);
    var rest := i + 1;
    if MatchesFrom(w, fold, p, i, v, j) {
      var k: nat := j;
      if !MatchesFrom(w, fold, p, rest, v, j) {
        k :| j < k <= |v| && MatchesFrom(w, fold, p, rest, v, k);
      }
      assert MatchesFrom(w, fold, p, rest, v, k);
    } else {
      forall k: nat | j <= k <= |v|
        ensures !MatchesFrom(w, fold, p, rest, v, k)
      {
        assert j < k ==> !MatchesLater(w, fold, p, v, i, j);
      }
    }
  }

  /** A star and a last run of literals match a string exactly when it has them at its end, with room for them. */
  lemma StarThenLast(w: Wildcard, fold: SimpleFold, p: seq<Token>, i: nat, t: string, v: string, j: nat)
    requires i + 1 + |t| == |p| && p[i] == Star && p[i + 1..i + 1 + |t|] == Literals(t) && j <= |v|
    ensures MatchesFrom(w, fold, p, i, v, j) <==> |v| >= j + |t| && HasAt(w, fold, t, v, |v| - |t|)
  {
    hide HasAt, MatchesFrom, Literals;
    var rest := i + 1;
    StarAbsorbs(w, fold, p, i, v, j);
    forall k: nat | j <= k <= |v|
      ensures MatchesFrom(w, fold, p, rest, v, k) <==> k + |t| == |v| && HasAt(w, fold, t, v, k)
    {
      LiteralsLast(w, fold, p, rest, t, v, k);
    }
    if |v| >= j + |t| && HasAt(w, fold, t, v, |v| - |t|) {
      var k: nat := |v| - |t|;
      assert MatchesFrom(w, fold, p, rest, v, k);
    }
  }

  /** s*t matches exactly the strings that begin with s and end with t without the two overlapping. */
  lemma StarTakesAnyRun(w: Wildcard, fold: SimpleFold, s: string, t: string, v: string)
    requires Quotable(w, s) && Quotable(w, t) && EndsClear(w, s, '*')
    ensures Matches(w, fold, Tokens(w, Quote(w, s) + "*" + Quote(w, t)), v) <==>
      |v| >= |s| + |t| && HasAt(w, fold, s, v, 0) && HasAt(w, fold, t, v, |v| - |t|)
  {
    hide Quotable, EndsClear, HasAt, MatchesFrom, Tokens, Quote, Literals;
    WildcardBetween(w, s, '*', t);
    var p := Literals(s) + [Star] + Literals(t);
    Sliced(s, Star, t);
    LiteralsThen(w, fold, p, 0, s, v, 0);
    HasRoom(w, fold, s, v, 0);
    if |s| <= |v| {
      StarThenLast(w, fold, p, |s|, t, v, |s|);
    }
  }

  lemma {:induction false} QuoteEnds(w: Wildcard, s: string, c: char)
    ensures Quote(w, s + [c]) == Quote(w, s) + QuoteOne(w, c)
    decreases |s|
  {
    hide QuoteOne;
    QuoteStarts(w, s + [c]);
    if s == [] {
      EmptyReads(w, s);
      EmptyReads(w, (s + [c])[1..]);
    } else {
      assert (s + [c])[1..] == s[1..] + [c];
      QuoteEnds(w, s[1..], c);
      QuoteStarts(w, s);
    }
  }

  lemma EscapedReads(w: Wildcard, before: string, c: char, after: string)
    requires c in w.escapes
    ensures var pattern := before + (['\\', c] + after);
      TokensFrom(w, pattern, |before|) == [Literal(c)] + TokensFrom(w, pattern, |before| + 2)
  {
    var pattern := before + (['\\', c] + after);
    assert pattern[|before|] == '\\' && pattern[|before| + 1] == c;
  }

  lemma RegroupedEscape(q: string, c: char, r: string)
    ensures var pattern := (q + ['\\']) + [c] + r;
      && pattern == [] + q + (['\\', c] + r) == q + (['\\', c] + r) == (q + ['\\', c]) + r + []
      && |q + ['\\', c]| == |q| + 2 && |q| + 2 + |r| == |pattern|
  {
  }

  /** The string before an unescapable last backslash. */
  lemma UnclearEnd(w: Wildcard, s: string, c: char)
    requires Quotable(w, s) && !EndsClear(w, s, c)
    ensures var front := s[..|s| - 1];
      && Quote(w, s) == Quote(w, front) + ['\\'] && Quotable(w, front) && c in w.escapes && EndsClear(w, front, '\\')
  {
    var front := s[..|s| - 1];
    assert s == front + ['\\'];
    QuoteEnds(w, front, '\\');
  }

  lemma NothingLeft(w: Wildcard, pattern: string)
    ensures TokensFrom(w, pattern, |pattern|) == []
  {
  }

  lemma EscapedThenQuoted(w: Wildcard, pattern: string, q: string, c: char, t: string)
    requires c in w.escapes && Quotable(w, t) && pattern == q + (['\\', c] + Quote(w, t)) == (q + ['\\', c]) + Quote(w, t) + []
    ensures TokensFrom(w, pattern, |q|) == [Literal(c)] + Literals(t)
  {
    hide TokensFrom, Quote, Literals, Quotable;
    EscapedReads(w, q, c, Quote(w, t));
    QuotedReadsInPlace(w, q + ['\\', c], t, []);
    NothingLeft(w, pattern);
    assert |q + ['\\', c]| + |Quote(w, t)| == |pattern|;
  }

  lemma QuotedFirst(w: Wildcard, pattern: string, s: string, rest: string)
    requires Quotable(w, s) && (rest != [] ==> EndsClear(w, s, rest[0])) && pattern == [] + Quote(w, s) + rest
    ensures Tokens(w, pattern) == Literals(s) + TokensFrom(w, pattern, |Quote(w, s)|)
  {
    hide TokensFrom, Quote, Literals, Quotable, EndsClear;
    QuotedReadsInPlace(w, [], s, rest);
  }

  /** Where the quoted string does not end clear, the wildcard after it is no wildcard: it and the last backslash read as one literal. */
  lemma UnclearEndEscapesTheWildcard(w: Wildcard, s: string, c: char, t: string)
    requires Quotable(w, s) && Quotable(w, t) && !EndsClear(w, s, c)
    ensures s != [] && Tokens(w, Quote(w, s) + [c] + Quote(w, t)) == Literals(s[..|s| - 1]) + ([Literal(c)] + Literals(t))
  {
    hide Tokens, TokensFrom, Quote, Literals, Quotable;
    var front := s[..|s| - 1];
    UnclearEnd(w, s, c);
    var pattern := Quote(w, s) + [c] + Quote(w, t);
    RegroupedEscape(Quote(w, front), c, Quote(w, t));
    QuotedFirst(w, pattern, front, ['\\', c] + Quote(w, t));
    EscapedThenQuoted(w, pattern, Quote(w, front), c, t);
  }
}
