/**
 * Host name patterns: patternMatch of access.c against what such a pattern is
 * meant to say.
 */
module Glob {
  /** tolower in the C locale */
  function Lower(c: char): char {
    if 'A' <= c <= 'Z' then c + 32 as char else c
  }

  datatype Token = Star | One | Lit(c: char)

  /** A backslash at the end quotes nothing; the C code would read on behind the pattern. */
  predicate GoodPattern(p: string) {
    if p == "" then true
    else if p[0] == '\\' then |p| > 1 && GoodPattern(p[2..])
    else GoodPattern(p[1..])
  }

  function Tokens(p: string): seq<Token>
    requires GoodPattern(p)
    decreases |p|
  {
    if p == "" then []
    else if p[0] == '\\' then [Lit(p[1])] + Tokens(p[2..])
    else [if p[0] == '*' then Star else if p[0] == '?' then One else Lit(p[0])] + Tokens(p[1..])
  }

  // ----- What a pattern says -----

  predicate Fits(t: Token, piece: string) {
    match t
    case Star => true
    case One => |piece| == 1
    case Lit(c) => |piece| == 1 && Lower(piece[0]) == Lower(c)
  }

  function Concat(pieces: seq<string>): string {
    if pieces == [] then "" else pieces[0] + Concat(pieces[1..])
  }

  ghost predicate Covers(pieces: seq<string>, s: string, ts: seq<Token>) {
    |pieces| == |ts| && Concat(pieces) == s && forall i :: 0 <= i < |ts| ==> Fits(ts[i], pieces[i])
  }

  /** The string can be cut into pieces, one for each token. */
  ghost predicate Matches(s: string, ts: seq<Token>) {
    exists pieces :: Covers(pieces, s, ts)
  }

  // ----- What the matcher does -----

  /** patternMatch: behind a star that is not the last token it tries only non-empty rests. */
  predicate Run(s: string, ts: seq<Token>)
    decreases |ts|, 0
  {
    if ts == [] then s == ""
    else match ts[0]
      case Star => |ts| == 1 || RunSome(s, ts[1..])
      case One => s != "" && Run(s[1..], ts[1..])
      case Lit(c) => s != "" && Lower(s[0]) == Lower(c) && Run(s[1..], ts[1..])
  }

  predicate RunSome(s: string, ts: seq<Token>)
    decreases |ts|, 1 + |s|
  {
    s != "" && (Run(s, ts) || RunSome(s[1..], ts))
  }

  predicate TwoStarsLast(ts: seq<Token>) {
    |ts| >= 2 && ts[|ts|-1] == Star && ts[|ts|-2] == Star
  }

  /** What the matcher makes of the tokens: two stars at the end take at least one character. */
  function Effective(ts: seq<Token>): seq<Token> {
    if TwoStarsLast(ts) then ts[..|ts|-2] + [One, Star] else ts
  }

  // ----- Pieces -----

  lemma MatchesNothing(s: string)
    ensures Matches(s, []) <==> s == ""
  {
    if s == "" { assert Covers([], s, []); }
  }

  lemma MatchesFirst(s: string, t: Token, ts: seq<Token>)
    ensures Matches(s, [t] + ts) <==> exists k :: 0 <= k <= |s| && Fits(t, s[..k]) && Matches(s[k..], ts)
  {
    if Matches(s, [t] + ts) {
      var pieces :| Covers(pieces, s, [t] + ts);
      MatchesRest(s, t, ts, pieces);
    }
    if k :| 0 <= k <= |s| && Fits(t, s[..k]) && Matches(s[k..], ts) {
      var pieces :| Covers(pieces, s[k..], ts);
      MatchesMore(s, t, ts, k, pieces);
    }
  }

  lemma MatchesRest(s: string, t: Token, ts: seq<Token>, pieces: seq<string>)
    requires Covers(pieces, s, [t] + ts)
    ensures var k := |pieces[0]|; k <= |s| && Fits(t, s[..k]) && Matches(s[k..], ts)
  {
    var all, k, rest := [t] + ts, |pieces[0]|, pieces[1..];
    assert all[0] == t && s[..k] == pieces[0] && s[k..] == Concat(rest);
    forall i | 0 <= i < |ts| ensures Fits(ts[i], rest[i]) { assert all[i+1] == ts[i]; }
    assert Covers(rest, s[k..], ts);
  }

  lemma MatchesMore(s: string, t: Token, ts: seq<Token>, k: nat, pieces: seq<string>)
    requires k <= |s| && Fits(t, s[..k]) && Covers(pieces, s[k..], ts)
    ensures Matches(s, [t] + ts)
  {
    var more := [s[..k]] + pieces;
    assert more[1..] == pieces && s[..k] + s[k..] == s;
    assert Covers(more, s, [t] + ts);
  }

  lemma MatchesStar(s: string, ts: seq<Token>)
    ensures Matches(s, [Star] + ts) <==> exists k :: 0 <= k <= |s| && Matches(s[k..], ts)
  {
    MatchesFirst(s, Star, ts);
    if k :| 0 <= k <= |s| && Matches(s[k..], ts) {
      assert Fits(Star, s[..k]);
    }
  }

  lemma MatchesOne(s: string, t: Token, ts: seq<Token>)
    requires t != Star
    ensures Matches(s, [t] + ts) <==> s != "" && Fits(t, s[..1]) && Matches(s[1..], ts)
  {
    MatchesFirst(s, t, ts);
    if k :| 0 <= k <= |s| && Fits(t, s[..k]) && Matches(s[k..], ts) {
      assert |s[..k]| == 1;
    }
  }

  lemma MatchesStarLast(s: string)
    ensures Matches(s, [Star])
  {
    MatchesNothing(s[|s|..]);
    MatchesStar(s, []);
    assert [Star] + [] == [Star];
  }

  /** Each token but a star takes a character. */
  function Takers(ts: seq<Token>): nat {
    if ts == [] then 0 else (if ts[0] == Star then 0 else 1) + Takers(ts[1..])
  }

  lemma {:induction false} MatchesTakes(s: string, ts: seq<Token>)
    requires Matches(s, ts)
    ensures Takers(ts) <= |s|
    decreases |ts|
  {
    if ts != [] {
      assert [ts[0]] + ts[1..] == ts;
      if ts[0] == Star {
        MatchesStar(s, ts[1..]);
        var k :| 0 <= k <= |s| && Matches(s[k..], ts[1..]);
        MatchesTakes(s[k..], ts[1..]);
      } else {
        MatchesOne(s, ts[0], ts[1..]);
        MatchesTakes(s[1..], ts[1..]);
      }
    }
  }

  lemma {:induction false} TakersConcat(a: seq<Token>, b: seq<Token>)
    ensures Takers(a + b) == Takers(a) + Takers(b)
  {
    if a == [] { assert a + b == b; } else { TakersConcat(a[1..], b); assert (a + b)[1..] == a[1..] + b; }
  }

  lemma {:induction false} TakerCounts(ts: seq<Token>, i: nat)
    requires i < |ts| && ts[i] != Star
    ensures Takers(ts) >= 1
  {
    if i > 0 { TakerCounts(ts[1..], i - 1); }
  }

  // ----- The matcher and the meaning -----

  lemma {:induction false} RunSomeIs(s: string, ts: seq<Token>)
    ensures RunSome(s, ts) <==> exists k :: 0 <= k < |s| && Run(s[k..], ts)
    decreases |s|
  {
    if s != "" {
      RunSomeIs(s[1..], ts);
      assert s[0..] == s;
      forall k | 0 <= k < |s| - 1 ensures s[1..][k..] == s[k+1..] {}
      if k :| 0 < k < |s| && Run(s[k..], ts) { assert s[1..][k-1..] == s[k..]; }
    }
  }

  lemma EffectiveCons(t: Token, ts: seq<Token>)
    requires ts != [] && !(t == Star && ts == [Star])
    ensures Effective([t] + ts) == [t] + Effective(ts)
  {
    var all := [t] + ts;
    assert all[|all|-1] == ts[|ts|-1];
    if |ts| >= 2 {
      assert all[|all|-2] == ts[|ts|-2];
      assert all[..|all|-2] == [t] + ts[..|ts|-2];
    }
  }

  lemma EffectiveTakes(ts: seq<Token>)
    requires ts != [] && ts != [Star]
    ensures Takers(Effective(ts)) >= 1
  {
    var n := |ts|;
    if TwoStarsLast(ts) {
      TakerCounts(Effective(ts), n - 2);
    } else if ts[n-1] != Star {
      TakerCounts(ts, n - 1);
    } else {
      TakerCounts(ts, n - 2);
    }
  }

  /** For all strings and patterns: the matcher accepts what the effective tokens say. */
  lemma {:induction false} RunIs(s: string, ts: seq<Token>)
    ensures Run(s, ts) <==> Matches(s, Effective(ts))
    decreases |ts|
  {
    if ts == [] {
      MatchesNothing(s);
    } else {
      var t, rest := ts[0], ts[1..];
      assert [t] + rest == ts;
      if t != Star {
        RunOne(s, t, rest);
      } else if rest == [] {
        MatchesStarLast(s);
        assert ts == [Star];
      } else if rest == [Star] {
        RunStars(s);
        assert ts == [Star, Star] && ts[..0] == [] && [] + [One, Star] == [One, Star];
      } else {
        RunStar(s, rest);
      }
    }
  }

  lemma {:induction false} RunOne(s: string, t: Token, rest: seq<Token>)
    requires t != Star
    ensures Run(s, [t] + rest) <==> Matches(s, Effective([t] + rest))
    decreases |rest| + 1, 0
  {
    var ts := [t] + rest;
    assert ts[1..] == rest;
    if rest != [] { EffectiveCons(t, rest); } else { assert Effective(rest) == []; }
    MatchesOne(s, t, Effective(rest));
    if s != "" { RunIs(s[1..], rest); }
  }

  lemma RunStars(s: string)
    ensures Run(s, [Star, Star]) <==> s != ""
    ensures Matches(s, [One, Star]) <==> s != ""
  {
    assert [Star, Star][1..] == [Star];
    assert [One] + [Star] == [One, Star];
    MatchesOne(s, One, [Star]);
    if s != "" {
      assert Run(s, [Star]);
      MatchesStarLast(s[1..]);
    }
  }

  lemma {:induction false} RunStar(s: string, rest: seq<Token>)
    requires rest != [] && rest != [Star]
    ensures Run(s, [Star] + rest) <==> Matches(s, Effective([Star] + rest))
    decreases |rest| + 1, 0
  {
    var ts := [Star] + rest;
    assert ts[1..] == rest;
    EffectiveCons(Star, rest);
    MatchesStar(s, Effective(rest));
    RunSomeIs(s, rest);
    EffectiveTakes(rest);
    forall k | 0 <= k <= |s| ensures Run(s[k..], rest) <==> Matches(s[k..], Effective(rest)) {
      RunIs(s[k..], rest);
    }
    forall k | 0 <= k <= |s| && Matches(s[k..], Effective(rest)) ensures k < |s| {
      MatchesTakes(s[k..], Effective(rest));
    }
  }

  /** The shortest string that fits: no character for a star, the literal or any character otherwise. */
  function Shortest(ts: seq<Token>): string {
    if ts == [] then ""
    else (match ts[0] case Star => "" case One => "x" case Lit(c) => [c]) + Shortest(ts[1..])
  }

  lemma {:induction false} ShortestMatches(ts: seq<Token>)
    ensures Matches(Shortest(ts), ts)
  {
    if ts == [] {
      MatchesNothing("");
    } else {
      ShortestMatches(ts[1..]);
      var s, r := Shortest(ts), Shortest(ts[1..]);
      assert [ts[0]] + ts[1..] == ts;
      if ts[0] == Star {
        MatchesStar(s, ts[1..]);
        assert s[0..] == r;
      } else {
        MatchesOne(s, ts[0], ts[1..]);
        assert s[1..] == r;
      }
    }
  }

  lemma {:induction false} ShortestLength(ts: seq<Token>)
    ensures |Shortest(ts)| == Takers(ts)
  {
    if ts != [] { ShortestLength(ts[1..]); }
  }

  /** Two stars at the end ask for a character that the pattern does not. */
  lemma TwoStarsDiffer(ts: seq<Token>)
    requires TwoStarsLast(ts)
    ensures Matches(Shortest(ts), ts) && !Run(Shortest(ts), ts)
  {
    ShortestMatches(ts);
    ShortestLength(ts);
    RunIs(Shortest(ts), ts);
    var pre := ts[..|ts|-2];
    assert ts == pre + [Star, Star];
    TakersConcat(pre, [Star, Star]);
    TakersConcat(pre, [One, Star]);
    assert [One, Star][1..] == [Star] && [Star, Star][1..] == [Star] && [Star][1..] == [];
    if Matches(Shortest(ts), Effective(ts)) { MatchesTakes(Shortest(ts), Effective(ts)); }
  }

  /** The matcher is right about every string exactly if the pattern does not end in two stars. */
  lemma RightExactly(p: string)
    requires GoodPattern(p)
    ensures (forall s :: Run(s, Tokens(p)) <==> Matches(s, Tokens(p))) <==> !TwoStarsLast(Tokens(p))
  {
    var ts := Tokens(p);
    if TwoStarsLast(ts) {
      TwoStarsDiffer(ts);
    } else {
      forall s ensures Run(s, ts) <==> Matches(s, ts) { RunIs(s, ts); }
    }
  }

  // ----- The code -----

  predicate GoodFrom(p: string, j: nat)
    requires j <= |p|
  {
    GoodPattern(p[j..])
  }

  predicate RunFrom(s: string, i: nat, p: string, j: nat)
    requires i <= |s| && j <= |p| && GoodFrom(p, j)
  {
    Run(s[i..], Tokens(p[j..]))
  }

  predicate RunSomeFrom(s: string, i: nat, p: string, j: nat)
    requires i <= |s| && j <= |p| && GoodFrom(p, j)
  {
    RunSome(s[i..], Tokens(p[j..]))
  }

  lemma RunAtEnd(s: string, i: nat, p: string)
    requires i <= |s|
    ensures GoodFrom(p, |p|) && (RunFrom(s, i, p, |p|) <==> i == |s|)
  {}

  lemma RunAtStar(s: string, i: nat, p: string, j: nat)
    requires i <= |s| && j < |p| && p[j] == '*' && GoodFrom(p, j)
    ensures GoodFrom(p, j + 1)
    ensures RunFrom(s, i, p, j) <==> j + 1 == |p| || RunSomeFrom(s, i, p, j + 1)
  {
    assert p[j..][1..] == p[j+1..];
    assert Tokens(p[j+1..]) == [] <==> j + 1 == |p|;
  }

  lemma RunAtAny(s: string, i: nat, p: string, j: nat)
    requires i <= |s| && j < |p| && p[j] == '?' && GoodFrom(p, j)
    ensures GoodFrom(p, j + 1)
    ensures RunFrom(s, i, p, j) <==> i < |s| && RunFrom(s, i + 1, p, j + 1)
  {
    assert p[j..][1..] == p[j+1..];
    if i < |s| { assert s[i..][1..] == s[i+1..]; }
  }

  /** e is where the literal stands: at j or behind a backslash there. */
  lemma RunAtLiteral(s: string, i: nat, p: string, j: nat)
    requires i <= |s| && j < |p| && p[j] != '*' && p[j] != '?' && GoodFrom(p, j)
    ensures var e := if p[j] == '\\' then j + 1 else j;
      && e < |p| && GoodFrom(p, e + 1)
      && (RunFrom(s, i, p, j) <==> i < |s| && Lower(p[e]) == Lower(s[i]) && RunFrom(s, i + 1, p, e + 1))
  {
    assert p[j..][1..] == p[j+1..];
    if p[j] == '\\' { assert p[j..][2..] == p[j+2..]; }
    if i < |s| { assert s[i..][1..] == s[i+1..]; }
  }

  lemma RunSomeStep(s: string, i: nat, p: string, j: nat)
    requires i <= |s| && j <= |p| && GoodFrom(p, j)
    ensures RunSomeFrom(s, i, p, j) <==> i < |s| && (RunFrom(s, i, p, j) || RunSomeFrom(s, i + 1, p, j))
  {
    if i < |s| { assert s[i..][1..] == s[i+1..]; }
  }

  /** patternMatch; a missing string counts as empty. */
  method PatternMatch(str: string, i0: nat, pattern: string, j0: nat) returns (r: bool)
    requires i0 <= |str| && j0 <= |pattern| && GoodFrom(pattern, j0)
    ensures r <==> RunFrom(str, i0, pattern, j0)
    decreases |pattern| - j0, 0
  {
    hide RunFrom, RunSomeFrom, GoodFrom;
    var i: nat, j: nat := i0, j0;
    while true
      invariant i <= |str| && j0 <= j <= |pattern| && GoodFrom(pattern, j)
      invariant RunFrom(str, i, pattern, j) <==> RunFrom(str, i0, pattern, j0)
      decreases |pattern| - j
    {
      if j == |pattern| {
        RunAtEnd(str, i, pattern);
        return i == |str|;
      }
      var c := pattern[j];
      if c == '*' {
        RunAtStar(str, i, pattern, j);
        if j + 1 == |pattern| { return true; }
        r := MatchSome(str, i, pattern, j + 1);
        return;
      }
      if c == '?' {
        RunAtAny(str, i, pattern, j);
        if i == |str| { return false; }
      } else {
        RunAtLiteral(str, i, pattern, j);
        if c == '\\' {
          j := j + 1;
          c := pattern[j];
        }
        if i == |str| || Lower(c) != Lower(str[i]) { return false; }
      }
      i, j := i + 1, j + 1;
    }
  }

  /** The loop behind a star. */
  method MatchSome(str: string, i0: nat, pattern: string, j: nat) returns (r: bool)
    requires i0 <= |str| && j <= |pattern| && GoodFrom(pattern, j)
    ensures r <==> RunSomeFrom(str, i0, pattern, j)
    decreases |pattern| - j, 1
  {
    hide RunFrom, RunSomeFrom, GoodFrom;
    var i := i0;
    while i < |str|
      invariant i0 <= i <= |str|
      invariant RunSomeFrom(str, i, pattern, j) <==> RunSomeFrom(str, i0, pattern, j)
    {
      RunSomeStep(str, i, pattern, j);
      var here := PatternMatch(str, i, pattern, j);
      if here { return true; }
      i := i + 1;
    }
    RunSomeStep(str, i, pattern, j);
    r := false;
  }
}
