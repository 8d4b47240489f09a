/**
 * The two ways from a line of the configuration file to a command line: genkdmconf
 * reads the value with splitArgs as it stands; the daemon decodes it, and parseArgs
 * reads the result. When they agree.
 */
module ArgsReaders {
  import opened Wrappers
  import opened Args
  import opened ConfigLine
  import opened ArgsTokens

  // ----- Where the two readers part -----

  /** The letters that decoding takes for white space behind a backslash. */
  predicate Letter(c: char) {
    c == 's' || c == 't' || c == 'n' || c == 'r'
  }

  /** White space of which the daemon keeps some. */
  predicate Stays(w: string) {
    exists i :: 0 <= i < |w| && !Drops(w[i], false)
  }

  /**
   * Here, at a backslash, the readers part. Inside single quotes: a lone backslash
   * before one of the letters. Elsewhere: an escape of one backslash that ends the
   * value or stands before one of the letters; of two that end it, if white space that
   * the daemon keeps follows; or of exactly three that do not end it.
   */
  predicate OddHere(s: string, w: string, q: Quote)
    requires s != ""
  {
    s[0] == '\\' &&
    if q == InSingle then |s| > 1 && Letter(s[1])
    else
      var n := Taken(Stored, s);
      if n == |s| then n == 1 || (n == 2 && Stays(w))
      else (n == 1 && Letter(s[1])) || (n == 3 && s[3] != '\\')
  }

  predicate OddEscape(s: string, w: string, q: Quote)
    decreases |s|
  {
    s != "" &&
    (OddHere(s, w, q) ||
     var (m, r) := Next(Stored, s, q);
     OddEscape(r, w, After(q, m)))
  }

  predicate AllSpace(w: string) {
    forall i :: 0 <= i < |w| ==> IsSpace(w[i])
  }

  predicate Trimmed(s: string) {
    s == "" || !IsSpace(s[|s|-1])
  }

  // ----- Decoding, step by step -----

  lemma DecodePlain(s: string, w: string)
    requires s != "" && s[0] != '\\'
    ensures var r := Decode(s[1..] + w);
      Decode(s + w) == if r == "" && Drops(s[0], false) then "" else [s[0]] + r
  {
    assert (s + w)[1..] == s[1..] + w;
  }

  lemma DecodeEscape(s: string, w: string)
    requires |s| > 1 && s[0] == '\\'
    ensures Decode(s + w) == Meant(s[1]) + Decode(s[2..] + w)
  {
    assert (s + w)[2..] == s[2..] + w;
  }

  lemma {:induction false} DecodeSpace(w: string)
    requires AllSpace(w)
    ensures AllSpace(Decode(w)) && (Decode(w) != "" <==> Stays(w))
  {
    if w != "" {
      DecodeSpace(w[1..]);
      assert Stays(w) <==> !Drops(w[0], false) || Stays(w[1..]) by {
        if Stays(w[1..]) {
          var i :| 0 <= i < |w[1..]| && !Drops(w[1..][i], false);
          assert w[i+1] == w[1..][i];
        }
        if i :| 0 <= i < |w| && !Drops(w[i], false) && i > 0 { assert w[1..][i-1] == w[i]; }
      }
    }
  }

  lemma TrimmedRest(s: string, n: nat)
    requires Trimmed(s) && n <= |s|
    ensures Trimmed(s[n..]) && (s != "" && n == |s| - 1 ==> s[n..] == [s[n]])
  {}

  lemma DropsIsSpace(c: char, all: bool)
    requires Drops(c, all)
    ensures IsSpace(c)
  {}

  /** Of the value, nothing is left but blanks and a lone backslash: splitArgs emits that, parseArgs gets nothing. */
  lemma {:induction false} Gone(s: string, w: string, q: Quote, open: bool)
    requires s != "" && Trimmed(s) && AllSpace(w) && Decode(s + w) == ""
    ensures q != InSingle ==> OddEscape(s, w, q)
    ensures q != Bare ==> Broken(Emit(Stored, s, q, open))
    ensures HasChar(Emit(Stored, s, q, open))
  {
    hide Emit, OddEscape, Decode, Next, HasChar, AllSpace, Trimmed, IsSpace;
    if s[0] == '\\' {
      GoneLone(s, w);
      LoneIsSeen(s, w, q, open);
    } else {
      DecodePlain(s, w);
      BlankIsLast(s);
      TrimmedRest(s, 1);
      NextPlain(Stored, s, q);
      DropsIsSpace(s[0], false);
      EmitNext(Stored, s, q, open);
      OddNext(s, w, q);
      var m, r := PlainMove(s[0], q), s[1..];
      Gone(r, w, q, m != Gap);
      PutInFront(Shown(m, open), Emit(Stored, r, q, m != Gap));
    }
  }

  lemma LoneIsSeen(s: string, w: string, q: Quote, open: bool)
    requires s == "\\"
    ensures q != InSingle ==> OddEscape(s, w, q)
    ensures q != Bare ==> Broken(Emit(Stored, s, q, open))
    ensures HasChar(Emit(Stored, s, q, open))
  {
    OddNext(s, w, q);
    EmitNext(Stored, s, q, open);
    assert s[1..] == "" && Next(Stored, s, q) == (Put('\\'), "");
    assert Emit(Stored, s, q, open)[0] == Char('\\');
  }

  predicate HasChar(e: seq<Token>) {
    exists i :: 0 <= i < |e| && e[i].Char?
  }

  lemma PutInFront(x: seq<Token>, e: seq<Token>)
    ensures HasChar(e) ==> HasChar(x + e)
    ensures Broken(e) ==> Broken(x + e)
  {
    if HasChar(e) {
      var i :| 0 <= i < |e| && e[i].Char?;
      assert (x + e)[|x| + i] == e[i];
    }
  }

  lemma GoneLone(s: string, w: string)
    requires s != "" && s[0] == '\\' && Decode(s + w) == ""
    ensures s == "\\"
  {
    if |s + w| > 1 { MeantSomething((s + w)[1]); }
  }

  lemma MeantSomething(c: char)
    ensures Meant(c) != "" && |Meant(c)| <= 2
    ensures Letter(c) ==> |Meant(c)| == 1 && IsSpace(Meant(c)[0])
    ensures !Letter(c) && c != '\\' ==> Meant(c) == ['\\', c]
  {}

  // ----- One move of each reader -----

  predicate Special(c: char) {
    IsSpace(c) || c == '\\'
  }

  /** What is left for parseArgs, when r is left for splitArgs. */
  predicate Follows(r: string, w: string, u: string) {
    u == Decode(r + w) || (r == "" && AllSpace(u))
  }

  /** Both readers make the same move. */
  predicate InStep(s: string, w: string, q: Quote, d: string)
    requires s != ""
  {
    var (m, r) := Next(Stored, s, q);
    && d != "" && Next(Decoded, d, q).0 == m && Follows(r, w, Next(Decoded, d, q).1)
    && (OddEscape(s, w, q) <==> OddEscape(r, w, After(q, m)))
  }

  /** splitArgs sees a letter where parseArgs sees white space between words. */
  predicate AtLetter(s: string, w: string, q: Quote, d: string)
    requires s != ""
  {
    var (m, r) := Next(Stored, s, q);
    && OddEscape(s, w, q) && q == Bare && m.Put? && Letter(m.c)
    && d != "" && Next(Decoded, d, q) == (Gap, Decode(r + w))
  }

  /** They see different characters. */
  predicate Parted(s: string, w: string, q: Quote, d: string)
    requires s != ""
  {
    var m := Next(Stored, s, q).0;
    && OddEscape(s, w, q) && m.Put?
    && d != "" && Next(Decoded, d, q).0.Put? && Next(Decoded, d, q).0 != m && Special(Next(Decoded, d, q).0.c)
  }

  /** A backslash and a blank, which is not dropped for that, and then nothing, inside single quotes. */
  predicate AtBlank(s: string, w: string, q: Quote, d: string)
    requires s != ""
  {
    var (m, r) := Next(Stored, s, q);
    && q == InSingle && |d| == 2 && d[0] == '\\' && IsSpace(d[1])
    && m == Put('\\') && r != "" && Trimmed(r) && Decode(r + w) == ""
  }

  predicate Moves(s: string, w: string, q: Quote, d: string)
    requires s != ""
  {
    InStep(s, w, q, d) || AtLetter(s, w, q, d) || Parted(s, w, q, d) || AtBlank(s, w, q, d)
  }

  function PlainMove(c: char, q: Quote): Move {
    if q == Bare && IsSpace(c) then Gap
    else if c == '\'' && q != InDouble then Mark(if q == Bare then InSingle else Bare)
    else if c == '"' && q != InSingle then Mark(if q == Bare then InDouble else Bare)
    else Put(c)
  }

  lemma NextPlain(dia: Dialect, s: string, q: Quote)
    requires s != "" && s[0] != '\\'
    ensures Next(dia, s, q) == (PlainMove(s[0], q), s[1..])
  {}

  lemma PlainMoves(s: string, w: string, q: Quote)
    requires s != "" && s[0] != '\\' && Decode(s + w) != ""
    ensures Moves(s, w, q, Decode(s + w))
  {
    var d := Decode(s + w);
    hide Decode, Moves, Next, PlainMove;
    DecodePlain(s, w);
    assert d == [s[0]] + Decode(s[1..] + w) && d[1..] == Decode(s[1..] + w);
    NextPlain(Stored, s, q);
    NextPlain(Decoded, d, q);
    InStepMoves(s, w, q, d);
  }

  lemma NextSingle(dia: Dialect, s: string)
    requires s != "" && s[0] == '\\'
    ensures Next(dia, s, InSingle) ==
      (Put('\\'), if dia == Stored && |s| > 1 && s[1] == '\\' then s[2..] else s[1..])
  {}

  lemma SingleMoves(s: string, w: string)
    requires s != "" && s[0] == '\\' && Trimmed(s) && AllSpace(w) && Decode(s + w) != ""
    ensures Moves(s, w, InSingle, Decode(s + w))
  {
    var d := Decode(s + w);
    hide Decode, OddEscape, Next;
    NextSingle(Stored, s);
    OddNext(s, w, InSingle);
    if |s| == 1 {
      LoneAtEnd(s, w);
      DecodeSpace(w[1..]);
      NextSingle(Decoded, d);
      assert d[1..] == [w[0]] + Decode(w[1..]);
      InStepMoves(s, w, InSingle, d);
    } else if Letter(s[1]) {
      SingleLetter(s, w);
    } else {
      DecodeEscape(s, w);
      MeantSomething(s[1]);
      NextSingle(Decoded, d);
      SingleOther(s, w);
      if s[1] == '\\' || Decode(s[1..] + w) != "" { InStepMoves(s, w, InSingle, d); }
    }
  }

  lemma SingleLetter(s: string, w: string)
    requires |s| > 1 && s[0] == '\\' && Letter(s[1])
    ensures Moves(s, w, InSingle, Decode(s + w))
  {
    var d := Decode(s + w);
    hide Decode, OddEscape;
    DecodeEscape(s, w);
    MeantSomething(s[1]);
    OddNext(s, w, InSingle);
    assert d[0] == Meant(s[1])[0];
    PartedMoves(s, w, InSingle, d);
  }

  lemma SingleOther(s: string, w: string)
    requires |s| > 1 && s[0] == '\\' && !Letter(s[1]) && Trimmed(s)
    requires var d := Decode(s + w); d != "" && d[0] == '\\'
    ensures var d := Decode(s + w);
      if s[1] == '\\' then d[1..] == Decode(s[2..] + w)
      else if Decode(s[1..] + w) == "" then |d| == 2 && IsSpace(d[1]) && Trimmed(s[1..])
      else d[1..] == Decode(s[1..] + w)
  {
    hide Decode, IsSpace, Trimmed;
    var d, rest := Decode(s + w), Decode(s[2..] + w);
    DecodeEscape(s, w);
    MeantSomething(s[1]);
    if s[1] == '\\' {
      assert d == ['\\'] + rest;
    } else {
      var x := [s[1]];
      assert s[1..][1..] == s[2..];
      DecodePlain(s[1..], w);
      TrimmedRest(s, 1);
      assert d == ['\\'] + (x + rest);
      if rest == "" && Drops(s[1], false) {
        DropsIsSpace(s[1], false);
        assert x + rest == x;
      }
    }
  }

  /** A lone backslash ends the value; white space follows. */
  lemma LoneAtEnd(s: string, w: string)
    requires s == "\\" && AllSpace(w) && Decode(s + w) != ""
    ensures w != "" && Decode(s + w) == ['\\', w[0]] + Decode(w[1..])
  {
    assert w == "" ==> s + w == s;
    assert (s + w)[1] == w[0] && (s + w)[2..] == w[1..];
    MeantSomething(w[0]);
  }

  lemma NextDecoded(d: string, q: Quote)
    requires d != "" && d[0] == '\\' && q != InSingle
    ensures Next(Decoded, d, q) == if |d| == 1 then (Put('\\'), "") else (Put(d[1]), d[2..])
  {}

  lemma OddNext(s: string, w: string, q: Quote)
    requires s != ""
    ensures var (m, r) := Next(Stored, s, q);
      OddEscape(s, w, q) <==> OddHere(s, w, q) || OddEscape(r, w, After(q, m))
  {}

  lemma OneAtEnd(s: string, w: string, q: Quote)
    requires s == "\\" && q != InSingle && AllSpace(w) && Decode(s + w) != ""
    ensures Moves(s, w, q, Decode(s + w))
  {
    var d := Decode(s + w);
    hide Decode, OddEscape, Moves, Next;
    LoneAtEnd(s, w);
    OddNext(s, w, q);
    NextStored(s, q);
    NextDecoded(d, q);
    assert d[1] == w[0];
    PartedMoves(s, w, q, d);
  }

  lemma NextStored(s: string, q: Quote)
    requires s != "" && s[0] == '\\' && q != InSingle
    ensures var n := Taken(Stored, s);
      Next(Stored, s, q) == if n < |s| then (Put(s[n]), s[n+1..]) else (Put('\\'), "")
  {}

  lemma InStepMoves(s: string, w: string, q: Quote, d: string)
    requires s != "" && d != "" && !OddHere(s, w, q)
    requires Next(Stored, s, q).0 == Next(Decoded, d, q).0
    requires Follows(Next(Stored, s, q).1, w, Next(Decoded, d, q).1)
    ensures Moves(s, w, q, d)
  {
    OddNext(s, w, q);
    hide OddHere, OddEscape, Next, Follows;
  }

  lemma PartedMoves(s: string, w: string, q: Quote, d: string)
    requires s != "" && d != "" && OddEscape(s, w, q)
    requires var m, n := Next(Stored, s, q).0, Next(Decoded, d, q).0; m.Put? && n.Put? && m != n && Special(n.c)
    ensures Moves(s, w, q, d)
  {}

  lemma Peeled(c: char, e: char, rest: string)
    ensures var d := [c] + ([e] + rest); |d| > 1 && d[0] == c && d[1] == e && d[2..] == rest
  {}

  lemma TwoAtEnd(s: string, w: string, q: Quote)
    requires s == "\\\\" && q != InSingle && AllSpace(w)
    ensures Moves(s, w, q, Decode(s + w))
  {
    var d := Decode(s + w);
    hide Decode, OddEscape, Moves, Next;
    DecodeEscape(s, w);
    assert s[2..] + w == w && "" + w == w;
    assert d == ['\\'] + Decode(w);
    DecodeSpace(w);
    OddNext(s, w, q);
    NextStored(s, q);
    NextDecoded(d, q);
    if Decode(w) == "" {
      InStepMoves(s, w, q, d);
    } else {
      PartedMoves(s, w, q, d);
    }
  }

  lemma ThreesAtEnd(s: string, w: string, q: Quote)
    requires s == "\\\\\\" && q != InSingle && AllSpace(w)
    ensures Moves(s, w, q, Decode(s + w))
  {
    var d := Decode(s + w);
    ThreesDecoded(s, w);
    hide Decode, OddEscape, Moves, Next;
    NextStored(s, q);
    NextDecoded(d, q);
    InStepMoves(s, w, q, d);
  }

  lemma ThreesDecoded(s: string, w: string)
    requires s == "\\\\\\" && AllSpace(w)
    ensures var d := Decode(s + w);
      if w == "" then d == "\\" else |d| > 1 && d[0] == '\\' && d[1] == '\\' && AllSpace(d[2..])
  {
    DecodeEscape(s, w);
    ThreeAtEnd(s[2..], w);
    hide Decode;
    if w != "" {
      var u := [w[0]] + Decode(w[1..]);
      assert Decode(s[2..] + w) == ['\\'] + u;
      Peeled('\\', '\\', u);
    }
  }

  lemma ThreeAtEnd(s: string, w: string)
    requires s == "\\" && AllSpace(w)
    ensures Decode(s + w) == if w == "" then "" else ['\\', w[0]] + Decode(w[1..])
    ensures w != "" ==> AllSpace([w[0]] + Decode(w[1..]))
  {
    assert w == "" ==> s + w == s;
    if w != "" {
      MeantSomething(w[0]);
      assert (s + w)[1] == w[0] && (s + w)[2..] == w[1..];
      DecodeSpace(w[1..]);
    }
  }

  lemma EndMoves(s: string, w: string, q: Quote)
    requires s != "" && s[0] == '\\' && q != InSingle && Taken(Stored, s) == |s|
    requires AllSpace(w) && Decode(s + w) != ""
    ensures Moves(s, w, q, Decode(s + w))
  {
    hide Moves, Decode;
    if |s| == 1 {
      assert s == "\\";
      OneAtEnd(s, w, q);
    } else if |s| == 2 {
      assert s == "\\\\";
      TwoAtEnd(s, w, q);
    } else {
      assert s == "\\\\\\";
      ThreesAtEnd(s, w, q);
    }
  }

  lemma OneMoves(s: string, w: string, q: Quote)
    requires |s| > 1 && s[0] == '\\' && s[1] != '\\' && q != InSingle
    ensures Moves(s, w, q, Decode(s + w))
  {
    var d, rest := Decode(s + w), Decode(s[2..] + w);
    hide Decode, OddEscape;
    DecodeEscape(s, w);
    MeantSomething(s[1]);
    NextStored(s, q);
    OddNext(s, w, q);
    if Letter(s[1]) {
      LetterMoves(s, w, q);
    } else {
      assert d == ['\\', s[1]] + rest;
      NextDecoded(d, q);
      hide Moves, Next;
      assert d[2..] == rest;
      InStepMoves(s, w, q, d);
    }
  }

  lemma LetterMoves(s: string, w: string, q: Quote)
    requires |s| > 1 && s[0] == '\\' && Letter(s[1]) && q != InSingle
    ensures Moves(s, w, q, Decode(s + w))
  {
    var d, rest := Decode(s + w), Decode(s[2..] + w);
    hide Decode, OddEscape;
    DecodeEscape(s, w);
    MeantSomething(s[1]);
    NextStored(s, q);
    OddNext(s, w, q);
    assert d == Meant(s[1]) + rest && d[1..] == rest;
    hide Meant;
    assert Next(Decoded, d, q) == if q == Bare then (Gap, rest) else (Put(d[0]), rest);
    hide Next;
    if q != Bare { PartedMoves(s, w, q, d); }
  }

  lemma TwoMoves(s: string, w: string, q: Quote)
    requires |s| > 2 && s[0] == '\\' && s[1] == '\\' && s[2] != '\\' && q != InSingle && Trimmed(s) && AllSpace(w)
    ensures Moves(s, w, q, Decode(s + w))
  {
    var d, rest := Decode(s + w), Decode(s[3..] + w);
    hide Decode, OddEscape, Moves, Next, Trimmed, AllSpace;
    DecodeEscape(s, w);
    assert s[2..][1..] == s[3..];
    DecodePlain(s[2..], w);
    NextStored(s, q);
    OddNext(s, w, q);
    NextDecoded(d, q);
    if rest == "" && Drops(s[2], false) {
      TrimmedRest(s, 2);
      TrimmedRest(s, 3);
      BlankIsLast(s[2..]);
      Gone(s[3..], w, q, true);
      PartedMoves(s, w, q, d);
    } else {
      Peeled('\\', s[2], rest);
      InStepMoves(s, w, q, d);
    }
  }

  lemma BlankIsLast(s: string)
    requires s != "" && Trimmed(s) && Drops(s[0], false)
    ensures |s| > 1
  {}

  lemma ThreeMoves(s: string, w: string, q: Quote)
    requires |s| > 3 && s[0] == '\\' && s[1] == '\\' && s[2] == '\\' && q != InSingle
    ensures Moves(s, w, q, Decode(s + w))
  {
    var d, rest := Decode(s + w), Decode(s[4..] + w);
    hide Decode, OddEscape, Moves, Next;
    DecodeEscape(s, w);
    DecodeEscape(s[2..], w);
    MeantSomething(s[3]);
    assert s[2..][2..] == s[4..] && s[2..][1] == s[3];
    NextStored(s, q);
    OddNext(s, w, q);
    assert d == ['\\'] + (Meant(s[3]) + rest);
    NextDecoded(d, q);
    if s[3] == '\\' {
      Peeled('\\', '\\', rest);
      InStepMoves(s, w, q, d);
    } else {
      assert d[1] == Meant(s[3])[0];
      PartedMoves(s, w, q, d);
    }
  }

  /** Whatever the text, one of the four happens, unless nothing at all is left for parseArgs. */
  lemma MovesOf(s: string, w: string, q: Quote)
    requires s != "" && Trimmed(s) && AllSpace(w) && Decode(s + w) != ""
    ensures Moves(s, w, q, Decode(s + w))
  {
    hide Moves, Decode;
    if s[0] != '\\' { PlainMoves(s, w, q); }
    else if q == InSingle { SingleMoves(s, w); }
    else if Taken(Stored, s) == |s| { EndMoves(s, w, q); }
    else if s[1] != '\\' { OneMoves(s, w, q); }
    else if s[2] != '\\' { TwoMoves(s, w, q); }
    else { ThreeMoves(s, w, q); }
  }

  // ----- Behind a letter at the start of a word -----

  predicate SpecialToken(t: Token) {
    t.Char? && Special(t.c)
  }

  /** f is not longer than e, or has a special character up to which e has none. */
  ghost predicate Lags(e: seq<Token>, f: seq<Token>) {
    |f| <= |e| || exists k :: 0 <= k < |f| && LagsAt(e, f, k)
  }

  ghost predicate LagsAt(e: seq<Token>, f: seq<Token>, k: nat)
    requires k < |f|
  {
    k <= |e| && SpecialToken(f[k]) && forall i :: 0 <= i < k ==> !SpecialToken(e[i])
  }

  /** So with one more plain token in front, e is not f. */
  lemma LagsDiffer(x: Token, e: seq<Token>, f: seq<Token>)
    requires Lags(e, f) && !SpecialToken(x)
    ensures [x] + e != f
  {
    forall k | 0 <= k < |f| && LagsAt(e, f, k) ensures [x] + e != f {
      assert ([x] + e)[k] == if k == 0 then x else e[k-1];
    }
  }

  lemma LagsHead(e: seq<Token>, f: seq<Token>)
    requires f != [] && SpecialToken(f[0])
    ensures Lags(e, f)
  {
    assert LagsAt(e, f, 0);
  }

  lemma LagsMore(x: seq<Token>, y: seq<Token>, e: seq<Token>, f: seq<Token>)
    requires Lags(e, f) && |y| <= |x| <= 1 && forall t :: t in x ==> !SpecialToken(t)
    ensures Lags(x + e, y + f)
  {
    if |f| > |e| {
      var k :| 0 <= k < |f| && LagsAt(e, f, k);
      assert (y + f)[|y| + k] == f[k];
      forall i | 0 <= i < |y| + k ensures !SpecialToken((x + e)[i]) {
        if i < |x| { assert x[i] in x; }
      }
      assert LagsAt(x + e, y + f, |y| + k);
    }
  }

  /** White space at the end gives nothing more, or, inside a quote, white space. */
  lemma {:induction false} EmitSpace(d: string, q: Quote, open: bool)
    requires AllSpace(d)
    ensures var f := Emit(Decoded, d, q, open);
      if q == Bare then f == Closed(open) else Broken(f) && (d != "" ==> SpecialToken(f[0]))
  {
    if d != "" {
      EmitNext(Decoded, d, q, open);
      var (m, r) := Next(Decoded, d, q);
      assert r == d[1..] && AllSpace(r);
      EmitSpace(r, q, m != Gap);
      hide Emit;
      if q == Bare { assert Closed(open) + [] == Closed(open); }
    }
  }

  lemma {:induction false} Behind(s: string, w: string, d: string, q: Quote, open: bool, openD: bool)
    requires Trimmed(s) && AllSpace(w) && Follows(s, w, d) && (openD ==> open)
    ensures Lags(Emit(Stored, s, q, open), Emit(Decoded, d, q, openD))
    decreases |s|
  {
    hide Emit, Lags, OddEscape, Trimmed, AllSpace, Follows, Decode, Moves, Next;
    if s == "" {
      LagsAtEnd(w, d, q, open, openD);
    } else if d == "" {
      LagsGone(s, w, q, open, openD);
    } else {
      var (m, r) := Next(Stored, s, q);
      var (n, u) := Next(Decoded, d, q);
      FollowsSome(s, w, d);
      MovesOf(s, w, q);
      EmitNext(Stored, s, q, open);
      EmitNext(Decoded, d, q, openD);
      if n.Put? && Special(n.c) {
        LagsHead(Emit(Stored, s, q, open), Emit(Decoded, d, q, openD));
      } else {
        PlainRest(s, w, q, d);
        Behind(r, w, u, After(q, n), m != Gap, n != Gap);
        LagsMore(Shown(m, open), Shown(n, openD), Emit(Stored, r, After(q, m), m != Gap),
                 Emit(Decoded, u, After(q, n), n != Gap));
      }
    }
  }

  lemma FollowsSome(s: string, w: string, d: string)
    requires s != "" && Follows(s, w, d)
    ensures d == Decode(s + w)
  {}

  lemma LagsAtEnd(w: string, d: string, q: Quote, open: bool, openD: bool)
    requires AllSpace(w) && Follows("", w, d) && (openD ==> open)
    ensures Lags(Emit(Stored, "", q, open), Emit(Decoded, d, q, openD))
  {
    SpaceFollows(w, d);
    EmitSpace(d, q, openD);
    if q != Bare && d != "" { LagsHead(Emit(Stored, "", q, open), Emit(Decoded, d, q, openD)); }
  }

  lemma LagsGone(s: string, w: string, q: Quote, open: bool, openD: bool)
    requires s != "" && Trimmed(s) && AllSpace(w) && Follows(s, w, "")
    ensures Lags(Emit(Stored, s, q, open), Emit(Decoded, "", q, openD))
  {
    Gone(s, w, q, open);
  }

  /** After a move of parseArgs that shows nothing special. */
  lemma PlainRest(s: string, w: string, q: Quote, d: string)
    requires s != "" && Trimmed(s) && d != "" && Moves(s, w, q, d)
    requires var n := Next(Decoded, d, q).0; !(n.Put? && Special(n.c))
    ensures var (m, r) := Next(Stored, s, q); var (n, u) := Next(Decoded, d, q);
      && Trimmed(r) && Follows(r, w, u) && After(q, m) == After(q, n)
      && (m == n || (m.Put? && Letter(m.c) && n == Gap))
  {
    NextTrimmed(s, q);
    hide OddEscape, Decode;
  }

  lemma NextTrimmed(s: string, q: Quote)
    requires s != "" && Trimmed(s)
    ensures Trimmed(Next(Stored, s, q).1)
  {}

  lemma SpaceFollows(w: string, d: string)
    requires AllSpace(w) && Follows("", w, d)
    ensures AllSpace(d)
  {
    DecodeSpace(w);
    assert "" + w == w;
  }

  // ----- Exactly -----

  /** Both texts end inside a quote, or the readers agree exactly if there is no odd escape. */
  predicate Compared(e: seq<Token>, f: seq<Token>, odd: bool) {
    (Broken(e) && Broken(f)) || (e == f <==> !odd)
  }

  lemma ComparedMore(x: seq<Token>, e: seq<Token>, f: seq<Token>, odd: bool)
    requires Compared(e, f, odd)
    ensures Compared(x + e, x + f, odd)
  {
    assert (x + e)[|x|..] == e && (x + f)[|x|..] == f;
  }

  lemma {:induction false} EmitsCompared(s: string, w: string, d: string, q: Quote, open: bool)
    requires Trimmed(s) && AllSpace(w) && Follows(s, w, d)
    ensures Compared(Emit(Stored, s, q, open), Emit(Decoded, d, q, open), OddEscape(s, w, q))
    decreases |s|
  {
    if s == "" {
      SpaceFollows(w, d);
      EmitSpace(d, q, open);
    } else if d == "" {
      Gone(s, w, q, open);
    } else {
      MovesOf(s, w, q);
      NextTrimmed(s, q);
      hide Emit, OddEscape, Decode, AllSpace, Trimmed, Compared, InStep, AtLetter, Parted, AtBlank, Follows;
      if InStep(s, w, q, d) {
        var (m, r) := Next(Stored, s, q);
        InStepFollows(s, w, q, d);
        EmitsCompared(r, w, Next(Decoded, d, q).1, After(q, m), m != Gap);
        InStepCompared(s, w, d, q, open);
      } else if AtLetter(s, w, q, d) {
        LetterDiffers(s, w, d, q, open);
      } else if Parted(s, w, q, d) {
        PartedDiffers(s, w, d, q, open);
      } else {
        BlankIsBroken(s, w, d, q, open);
      }
    }
  }

  lemma InStepFollows(s: string, w: string, q: Quote, d: string)
    requires s != "" && InStep(s, w, q, d)
    ensures d != "" && Follows(Next(Stored, s, q).1, w, Next(Decoded, d, q).1)
  {}

  lemma InStepCompared(s: string, w: string, d: string, q: Quote, open: bool)
    requires s != "" && d != "" && InStep(s, w, q, d)
    requires var (m, r) := Next(Stored, s, q);
      Compared(Emit(Stored, r, After(q, m), m != Gap), Emit(Decoded, Next(Decoded, d, q).1, After(q, m), m != Gap),
               OddEscape(r, w, After(q, m)))
    ensures Compared(Emit(Stored, s, q, open), Emit(Decoded, d, q, open), OddEscape(s, w, q))
  {
    var (m, r) := Next(Stored, s, q);
    EmitNext(Stored, s, q, open);
    EmitNext(Decoded, d, q, open);
    hide Emit, OddEscape, Next, Follows, Compared;
    ComparedMore(Shown(m, open), Emit(Stored, r, After(q, m), m != Gap),
                 Emit(Decoded, Next(Decoded, d, q).1, After(q, m), m != Gap), OddEscape(r, w, After(q, m)));
  }

  lemma PartedDiffers(s: string, w: string, d: string, q: Quote, open: bool)
    requires s != "" && d != "" && Parted(s, w, q, d)
    ensures Compared(Emit(Stored, s, q, open), Emit(Decoded, d, q, open), OddEscape(s, w, q))
  {
    EmitNext(Stored, s, q, open);
    EmitNext(Decoded, d, q, open);
    hide Emit, OddEscape, Next;
    assert Emit(Stored, s, q, open)[0] == Char(Next(Stored, s, q).0.c);
    assert Emit(Decoded, d, q, open)[0] == Char(Next(Decoded, d, q).0.c);
  }

  lemma BlankIsBroken(s: string, w: string, d: string, q: Quote, open: bool)
    requires s != "" && AtBlank(s, w, q, d) && AllSpace(w)
    ensures Compared(Emit(Stored, s, q, open), Emit(Decoded, d, q, open), OddEscape(s, w, q))
  {
    var r := Next(Stored, s, q).1;
    Gone(r, w, q, true);
    EmitNext(Stored, s, q, open);
    PutInFront(Shown(Put('\\'), open), Emit(Stored, r, q, true));
    NextSingle(Decoded, d);
    EmitNext(Decoded, d, q, open);
    EmitSpace(d[1..], q, true);
    hide Emit, OddEscape, Next;
    PutInFront(Shown(Put('\\'), open), Emit(Decoded, d[1..], q, true));
  }

  lemma LetterDiffers(s: string, w: string, d: string, q: Quote, open: bool)
    requires s != "" && Trimmed(s) && AllSpace(w) && d != "" && AtLetter(s, w, q, d)
    ensures Compared(Emit(Stored, s, q, open), Emit(Decoded, d, q, open), OddEscape(s, w, q))
  {
    hide Emit, Lags, OddEscape, Next, Trimmed, AllSpace, Decode;
    var (m, r) := Next(Stored, s, q);
    EmitNext(Stored, s, q, open);
    EmitNext(Decoded, d, q, open);
    NextTrimmed(s, q);
    var u := Decode(r + w);
    var e, f := Emit(Stored, r, Bare, true), Emit(Decoded, u, Bare, false);
    Behind(r, w, u, Bare, true, false);
    LagsDiffer(Char(m.c), e, f);
    HeadsDiffer(m.c, e, f, open);
  }

  lemma HeadsDiffer(c: char, e: seq<Token>, f: seq<Token>, open: bool)
    requires [Char(c)] + e != f
    ensures [Char(c)] + e != Closed(open) + f
  {
    if open {
      assert ([Char(c)] + e)[0] == Char(c) && (Closed(open) + f)[0] == End;
    } else {
      assert [] + f == f;
    }
  }

  lemma {:induction false} ChopTrims(v: string)
    ensures var s := Chop(v, true); Trimmed(s) && AllSpace(v[|s|..])
  {
    if v != "" {
      ChopTrims(v[1..]);
      var r := Chop(v[1..], true);
      if r == "" && Drops(v[0], true) {
        forall i | 0 <= i < |v| ensures IsSpace(v[i]) { if i > 0 { assert v[1..][i-1] == v[i]; } }
      } else {
        assert v[|r|+1..] == v[1..][|r|..];
        assert r != "" ==> ([v[0]] + r)[|r|] == r[|r|-1];
      }
    }
  }

  /**
   * For every line: what genkdmconf and the daemon make of it is the same exactly if
   * it has no odd escape, unless both meet a quote that is not closed.
   */
  lemma ReadersAgreeExactly(line: string)
    ensures var a, b := Split(Stored, RawValue(line)), Split(Decoded, Value(line));
      (a == b) <==> !OddEscape(RawValue(line), Tail(line), Bare) || (a.None? && b.None?)
  {
    var v, s, w := Skip(line), RawValue(line), Tail(line);
    ChopTrims(v);
    assert v == s + w;
    EmitsCompared(s, w, Value(line), Bare, false);
    SplitsAgree(s, Value(line));
  }

  /** A lone backslash before one of the letters is enough: one word for genkdmconf, two for the daemon. */
  lemma LoneBackslashDiffers()
    ensures var line := "a\\sb";
      && Split(Stored, RawValue(line)) == Some(["asb"])
      && Split(Decoded, Value(line)) == Some(["a", "b"])
  {
    ValuesOfLone();
    SplitsOfLone();
  }

  lemma ValuesOfLone()
    ensures RawValue("a\\sb") == "a\\sb" && Value("a\\sb") == "a b"
  {
    var s := ['a', '\\', 's', 'b'];
    assert s[1..] == ['\\', 's', 'b'] && s[1..][1..] == ['s', 'b'] && s[1..][1..][1..] == ['b'] && ['b'][1..] == [];
    assert Chop(['b'], true) == ['b'] && Decode(['b']) == ['b'];
    assert Chop(['s', 'b'], true) == ['s', 'b'];
    assert Chop(s[1..], true) == s[1..];
    assert s[1..][2..] == ['b'] && Decode(s[1..]) == [' ', 'b'];
  }

  lemma StoredWord()
    ensures Word(Stored, "a\\sb", Bare) == Some(Read("asb", ""))
  {
    WordAtEnd(Stored, Bare);
    WordNext(Stored, "a\\sb", Bare);
    WordNext(Stored, "\\sb", Bare);
    WordNext(Stored, "b", Bare);
    hide Word;
    assert "a\\sb"[1..] == "\\sb" && "\\sb"[2..] == "b" && "b"[1..] == "";
    assert ['b'] + "" == "b" && ['s'] + "b" == "sb" && ['a'] + "sb" == "asb";
  }

  lemma DecodedWords()
    ensures Word(Decoded, "a b", Bare) == Some(Read("a", " b"))
    ensures Word(Decoded, "b", Bare) == Some(Read("b", ""))
  {
    WordAtEnd(Decoded, Bare);
    WordNext(Decoded, "a b", Bare);
    WordNext(Decoded, " b", Bare);
    WordNext(Decoded, "b", Bare);
    hide Word;
    assert "b"[1..] == "" && "a b"[1..] == " b" && ['a'] + "" == "a" && ['b'] + "" == "b";
  }

  lemma SplitsOfLone()
    ensures Split(Stored, "a\\sb") == Some(["asb"]) && Split(Decoded, "a b") == Some(["a", "b"])
  {
    StoredWord();
    DecodedWords();
    SplitAtEnd(Stored);
    SplitAtEnd(Decoded);
    SplitGap(Decoded, " b");
    hide Word, Split;
    assert " b"[1..] == "b";
    OneWord(Stored, "a\\sb", "asb", "");
    OneWord(Decoded, "b", "b", "");
    OneWord(Decoded, "a b", "a", " b");
    assert ["asb"] + [] == ["asb"] && ["b"] + [] == ["b"] && ["a"] + ["b"] == ["a", "b"];
  }

  lemma SplitAtEnd(dia: Dialect)
    ensures Split(dia, "") == Some([])
  {}

  lemma SplitGap(dia: Dialect, s: string)
    requires s != "" && IsSpace(s[0])
    ensures Split(dia, s) == Split(dia, s[1..])
  {}

  lemma OneWord(dia: Dialect, s: string, w: string, rest: string)
    requires s != "" && !IsSpace(s[0]) && Word(dia, s, Bare) == Some(Read(w, rest))
    ensures Split(dia, s) == if Split(dia, rest).None? then None else Some([w] + Split(dia, rest).value)
  {}
}
