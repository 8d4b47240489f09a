/**
 * What splitArgs and parseArgs emit, move by move, so that the two can be compared in
 * the middle of a word.
 */
module ArgsTokens {
  import opened Wrappers
  import opened Args

  /** A character of a word, its end, or the end of the text inside a quote. */
  datatype Token = Char(c: char) | End | Unclosed

  /** White space between words, a quote, or a character that goes into the word. */
  datatype Move = Gap | Mark(q: Quote) | Put(c: char)

  function Next(dia: Dialect, s: string, q: Quote): (r: (Move, string))
    requires s != ""
    ensures |r.1| < |s|
  {
    if q == Bare && IsSpace(s[0]) then (Gap, s[1..])
    else if q == Bare && s[0] == '\'' then (Mark(InSingle), s[1..])
    else if q == Bare && s[0] == '"' then (Mark(InDouble), s[1..])
    else if q == InSingle && s[0] == '\'' then (Mark(Bare), s[1..])
    else if q == InDouble && s[0] == '"' then (Mark(Bare), s[1..])
    else if q == InSingle && dia == Stored && |s| > 1 && s[0] == '\\' && s[1] == '\\' then (Put('\\'), s[2..])
    else if q != InSingle && s[0] == '\\' then
      var n := Taken(dia, s);
      if n < |s| then (Put(s[n]), s[n+1..]) else (Put('\\'), "")
    else (Put(s[0]), s[1..])
  }

  function After(q: Quote, m: Move): Quote {
    match m
    case Gap => Bare
    case Mark(p) => p
    case Put(_) => q
  }

  function Closed(open: bool): seq<Token> {
    if open then [End] else []
  }

  function Shown(m: Move, open: bool): seq<Token> {
    match m
    case Gap => Closed(open)
    case Mark(_) => []
    case Put(c) => [Char(c)]
  }

  /** `open`: a word has begun. */
  function Emit(dia: Dialect, s: string, q: Quote, open: bool): seq<Token>
    decreases |s|
  {
    if s == "" then (if q == Bare then Closed(open) else [Unclosed])
    else
      var (m, r) := Next(dia, s, q);
      Shown(m, open) + Emit(dia, r, After(q, m), m != Gap)
  }

  predicate Broken(ts: seq<Token>) {
    ts != [] && ts[|ts|-1] == Unclosed
  }

  function Chars(w: string): (ts: seq<Token>)
    ensures |ts| == |w| && forall i :: 0 <= i < |w| ==> ts[i] == Char(w[i])
  {
    seq(|w|, i requires 0 <= i < |w| => Char(w[i]))
  }

  function Flat(ws: seq<string>): seq<Token> {
    if ws == [] then [] else Chars(ws[0]) + ([End] + Flat(ws[1..]))
  }

  lemma WordNext(dia: Dialect, s: string, q: Quote)
    requires s != ""
    ensures var (m, r) := Next(dia, s, q);
      Word(dia, s, q) == match m
        case Gap => Some(Read("", s))
        case Mark(p) => Word(dia, r, p)
        case Put(c) => Prepend(c, Word(dia, r, q))
  {}

  lemma WordAtEnd(dia: Dialect, q: Quote)
    ensures Word(dia, "", q) == if q == Bare then Some(Read("", "")) else None
  {}

  lemma EmitNext(dia: Dialect, s: string, q: Quote, open: bool)
    requires s != ""
    ensures var (m, r) := Next(dia, s, q);
      Emit(dia, s, q, open) == Shown(m, open) + Emit(dia, r, After(q, m), m != Gap)
  {}

  lemma CharsCons(c: char, w: string, rest: seq<Token>)
    ensures [Char(c)] + (Chars(w) + rest) == Chars([c] + w) + rest
  {
    assert [Char(c)] + Chars(w) == Chars([c] + w);
  }

  /** What `Word` reads, token by token. */
  predicate Emits(r: Option<Read>, dia: Dialect, e: seq<Token>) {
    if r.Some? then e == Chars(r.value.word) + Emit(dia, r.value.rest, Bare, true) else Broken(e)
  }

  lemma EmitsPut(c: char, r: Option<Read>, dia: Dialect, e: seq<Token>)
    requires Emits(r, dia, e)
    ensures Emits(Prepend(c, r), dia, [Char(c)] + e)
  {
    if r.Some? { CharsCons(c, r.value.word, Emit(dia, r.value.rest, Bare, true)); }
  }

  lemma EmitsNothing(dia: Dialect, s: string)
    ensures Emits(Some(Read("", s)), dia, Emit(dia, s, Bare, true))
  {
    assert Chars("") == [];
  }

  lemma {:induction false} WordEmits(dia: Dialect, s: string, q: Quote)
    ensures Emits(Word(dia, s, q), dia, Emit(dia, s, q, true))
    decreases |s|
  {
    if s == "" {
      EmitsNothing(dia, s);
    } else {
      hide Word, Emit, Emits;
      var (m, r) := Next(dia, s, q);
      WordNext(dia, s, q);
      EmitNext(dia, s, q, true);
      EmitsNothing(dia, s);
      match m {
        case Gap =>
        case Mark(p) =>
          WordEmits(dia, r, p);
          assert [] + Emit(dia, r, p, true) == Emit(dia, r, p, true);
        case Put(c) =>
          WordEmits(dia, r, q);
          EmitsPut(c, Word(dia, r, q), dia, Emit(dia, r, q, true));
      }
    }
  }

  lemma OpenIsGap(dia: Dialect, s: string)
    requires s == "" || IsSpace(s[0])
    ensures Emit(dia, s, Bare, true) == [End] + Emit(dia, s, Bare, false)
  {}

  lemma WordStarts(dia: Dialect, s: string)
    requires s != "" && !IsSpace(s[0])
    ensures Emit(dia, s, Bare, false) == Emit(dia, s, Bare, true)
  {}

  lemma {:induction false} RestIsGap(dia: Dialect, s: string, q: Quote)
    requires Word(dia, s, q).Some?
    ensures var rest := Word(dia, s, q).value.rest; rest == "" || IsSpace(rest[0])
    decreases |s|
  {
    if s != "" {
      WordNext(dia, s, q);
      hide Word;
      var (m, r) := Next(dia, s, q);
      if m != Gap { RestIsGap(dia, r, After(q, m)); }
      else { assert IsSpace(s[0]); }
    }
  }

  /** The words of a text are what is emitted, cut at the ends of words. */
  lemma {:induction false} SplitEmits(dia: Dialect, s: string)
    ensures var e, r := Emit(dia, s, Bare, false), Split(dia, s);
      if r.Some? then e == Flat(r.value) else Broken(e)
    decreases |s|
  {
    if s == "" {
    } else if IsSpace(s[0]) {
      SplitEmits(dia, s[1..]);
      EmitNext(dia, s, Bare, false);
      hide Emit;
      assert Next(dia, s, Bare) == (Gap, s[1..]);
      assert [] + Emit(dia, s[1..], Bare, false) == Emit(dia, s[1..], Bare, false);
    } else {
      WordStarts(dia, s);
      WordEmits(dia, s, Bare);
      var r := Word(dia, s, Bare);
      if r.Some? {
        var rest := r.value.rest;
        RestIsGap(dia, s, Bare);
        OpenIsGap(dia, rest);
        SplitEmits(dia, rest);
        hide Emit, Word;
        BrokenAfter(Chars(r.value.word), Emit(dia, rest, Bare, false));
        assert Split(dia, rest).Some? ==> Split(dia, s).value[1..] == Split(dia, rest).value;
      }
    }
  }

  lemma BrokenAfter(a: seq<Token>, b: seq<Token>)
    ensures Broken(b) ==> Broken(a + ([End] + b))
  {}

  lemma {:induction false} FlatIsWhole(ws: seq<string>)
    ensures !Broken(Flat(ws))
  {
    if ws != [] {
      FlatIsWhole(ws[1..]);
      assert Flat(ws)[|Flat(ws)|-1] == ([End] + Flat(ws[1..]))[|Flat(ws[1..])|];
    }
  }

  lemma {:induction false} FlatTells(u: seq<string>, v: seq<string>)
    requires Flat(u) == Flat(v)
    ensures u == v
    decreases |u|
  {
    if u == [] {
      assert v != [] ==> |Flat(v)| > 0;
    } else {
      assert v != [];
      FlatFirst(u[0], v[0], Flat(u[1..]), Flat(v[1..]));
      FlatTells(u[1..], v[1..]);
      assert u == [u[0]] + u[1..] && v == [v[0]] + v[1..];
    }
  }

  lemma FlatFirst(a: string, b: string, x: seq<Token>, y: seq<Token>)
    requires Chars(a) + ([End] + x) == Chars(b) + ([End] + y)
    ensures a == b && x == y
  {
    var s, t := Chars(a) + ([End] + x), Chars(b) + ([End] + y);
    assert s[|a|] == End && t[|b|] == End;
    assert forall i :: 0 <= i < |a| ==> s[i] == Char(a[i]);
    assert forall i :: 0 <= i < |b| ==> t[i] == Char(b[i]);
    assert |a| == |b|;
    forall i | 0 <= i < |a| ensures a[i] == b[i] { assert s[i] == t[i]; }
    assert s[|a|+1..] == x && t[|b|+1..] == y;
  }

  lemma SplitsAgree(s: string, t: string)
    ensures var a, b := Split(Stored, s), Split(Decoded, t);
      var e, f := Emit(Stored, s, Bare, false), Emit(Decoded, t, Bare, false);
      && (a == b <==> e == f || (a.None? && b.None?))
      && (Broken(e) <==> a.None?) && (Broken(f) <==> b.None?)
  {
    var a, b := Split(Stored, s), Split(Decoded, t);
    SplitEmits(Stored, s);
    SplitEmits(Decoded, t);
    hide Split, Emit;
    if a.Some? { FlatIsWhole(a.value); }
    if b.Some? { FlatIsWhole(b.value); }
    if a.Some? && b.Some? && Flat(a.value) == Flat(b.value) { FlatTells(a.value, b.value); }
  }
}
