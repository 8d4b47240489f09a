/**
 * What joinArgs writes, by way of a line of the configuration file, to splitArgs and
 * to parseArgs.
 */
module ArgsLines {
  import opened Wrappers
  import opened Args
  import opened ConfigLine
  import opened ArgsTokens
  import opened ArgsReaders

  // ----- Doubled backslashes -----

  lemma NextDoubled(t: string, q: Quote)
    requires t != ""
    ensures var (m, r) := Next(Decoded, t, q); Next(Stored, Doubled(t), q) == (m, Doubled(r))
  {
    var s := Doubled(t);
    hide Next, Doubled;
    DoubledFirst(t);
    if t[0] != '\\' {
      NextPlain(Decoded, t, q);
      NextPlain(Stored, s, q);
    } else if q == InSingle {
      NextSingle(Decoded, t);
      NextSingle(Stored, s);
    } else {
      NextDecoded(t, q);
      NextStored(s, q);
      if |t| > 1 { EscapedPair(t); } else { DoubledLone(t); }
    }
  }

  lemma DoubledLone(t: string)
    requires t == "\\"
    ensures Doubled(t) == "\\\\" && Doubled("") == ""
  {}

  lemma DoubledFirst(t: string)
    requires t != ""
    ensures var s := Doubled(t);
      if t[0] == '\\' then |s| > 1 && s[0] == '\\' && s[1] == '\\' && s[2..] == Doubled(t[1..])
      else s != "" && s[0] == t[0] && s[1..] == Doubled(t[1..])
  {}

  lemma EscapedPair(t: string)
    requires |t| > 1 && t[0] == '\\'
    ensures var s := Doubled(t); var n := if t[1] == '\\' then 3 else 2;
      |s| > n && s[0] == '\\' && s[1] == '\\' && s[2] == t[1] && s[n] == t[1] && s[n+1..] == Doubled(t[2..])
  {
    var d := Doubled(t[2..]);
    assert t == [t[0]] + ([t[1]] + t[2..]);
    DoubledCons(t[0], [t[1]] + t[2..]);
    DoubledCons(t[1], t[2..]);
  }

  lemma {:induction false} EmitDoubled(t: string, q: Quote, open: bool)
    ensures Emit(Stored, Doubled(t), q, open) == Emit(Decoded, t, q, open)
    decreases |t|
  {
    if t != "" {
      NextDoubled(t, q);
      var (m, r) := Next(Decoded, t, q);
      EmitDoubled(r, After(q, m), m != Gap);
      EmitNext(Stored, Doubled(t), q, open);
      EmitNext(Decoded, t, q, open);
    }
  }

  /**
   * With every backslash doubled, and no other escape, splitArgs reads any text as
   * parseArgs reads it undoubled.
   */
  lemma StoredReadsAsDecoded(t: string)
    ensures Split(Stored, Doubled(t)) == Split(Decoded, t)
  {
    EmitDoubled(t, Bare, false);
    SplitsAgree(Doubled(t), t);
  }

  /** And the undoubled text is what the daemon decodes, but for blanks at the end. */
  lemma {:induction false} DecodeDoubled(t: string)
    ensures Decode(Doubled(t)) == Chop(t, false)
  {
    if t != "" {
      DecodeDoubled(t[1..]);
      var s := Doubled(t);
      if t[0] == '\\' { assert s[2..] == Doubled(t[1..]); } else { assert s[1..] == Doubled(t[1..]); }
    }
  }

  lemma {:induction false} ChopDoubled(t: string, all: bool)
    ensures Chop(Doubled(t), all) == Doubled(Chop(t, all))
  {
    if t != "" {
      ChopDoubled(t[1..], all);
      var s, r := Doubled(t), Chop(t[1..], all);
      DoubledCons(t[0], r);
      if t[0] == '\\' {
        assert s[1..][1..] == Doubled(t[1..]) && s[1] == '\\';
        assert Chop(s[1..], all) == ['\\'] + Doubled(r);
      } else {
        assert s[1..] == Doubled(t[1..]);
      }
    }
  }

  lemma {:induction false} SkipDoubled(t: string)
    ensures Skip(Doubled(t)) == Doubled(Skip(t))
  {
    if t != "" && IsSpace(t[0]) {
      SkipDoubled(t[1..]);
      assert Doubled(t)[1..] == Doubled(t[1..]);
    }
  }

  lemma {:induction false} FirstLineDoubled(t: string)
    ensures FirstLine(Doubled(t)) == Doubled(FirstLine(t))
  {
    if t != "" && t[0] != '\n' {
      FirstLineDoubled(t[1..]);
      var s := Doubled(t);
      DoubledCons(t[0], FirstLine(t[1..]));
      if t[0] == '\\' {
        assert s[1..][1..] == Doubled(t[1..]) && s[1] == '\\';
      } else {
        assert s[1..] == Doubled(t[1..]);
      }
    }
  }

  lemma {:induction false} SplitSkip(t: string, all: bool)
    ensures Split(Decoded, Chop(Skip(t), all)) == Split(Decoded, Chop(t, all))
  {
    if t != "" && IsSpace(t[0]) {
      SplitSkip(t[1..], all);
      var r := Chop(t[1..], all);
      assert ([t[0]] + r)[1..] == r;
    }
  }

  /** A line with the doubled form of a text: what both readers take from it. */
  lemma DoubledLine(t: string)
    ensures Split(Stored, RawValue(Doubled(t))) == Split(Decoded, Chop(t, true))
    ensures Split(Decoded, Value(Doubled(t))) == Split(Decoded, Chop(t, false))
  {
    SkipDoubled(t);
    ChopDoubled(Skip(t), true);
    DecodeDoubled(Skip(t));
    StoredReadsAsDecoded(Chop(Skip(t), true));
    SplitSkip(t, true);
    SplitSkip(t, false);
  }

  // ----- joinArgs, and back -----

  predicate NoBreaks(args: seq<string>) {
    forall a :: a in args ==> NoBreak(a)
  }

  lemma ChopFirst(c: char, v: string, all: bool)
    ensures Chop([c] + v, all) == if Chop(v, all) == "" && Drops(c, all) then "" else [c] + Chop(v, all)
  {
    assert ([c] + v)[1..] == v;
  }

  lemma {:induction false} ChopConcat(u: string, v: string, all: bool)
    ensures Chop(u + v, all) == if Chop(v, all) == "" then Chop(u, all) else u + Chop(v, all)
  {
    if u == "" {
      assert u + v == v && "" + Chop(v, all) == Chop(v, all);
    } else {
      var c, r := u[0], u[1..];
      hide Chop, Drops;
      assert u + v == [c] + (r + v) && u == [c] + r;
      ChopConcat(r, v, all);
      ChopFirst(c, r + v, all);
      ChopFirst(c, r, all);
      assert [c] + (r + Chop(v, all)) == u + Chop(v, all);
    }
  }

  lemma {:induction false} EscapedTrims(a: string)
    requires Trimmed(a)
    ensures Trimmed(EscapeAll(Decoded, a))
  {
    if a != "" {
      TrimmedRest(a, 1);
      EscapedTrims(a[1..]);
      var e, r := Escape(Decoded, a[0]), EscapeAll(Decoded, a[1..]);
      assert !IsSpace(e[|e|-1]) || a[1..] != "";
      EscapedSome(a[1..]);
      assert r != "" ==> (e + r)[|e + r| - 1] == r[|r|-1];
    }
  }

  lemma {:induction false} EscapedSome(a: string)
    ensures EscapeAll(Decoded, a) == "" <==> a == ""
  {}

  lemma QuotedTrims(a: string)
    ensures Trimmed(Quoted(Decoded, a))
  {
    if !NeedsQuotes(a) {
      EscapedTrims(a);
    }
  }

  lemma {:induction false} EscapedBreaks(a: string)
    ensures NoBreak(EscapeAll(Decoded, a)) <==> NoBreak(a)
    ensures FirstLine(EscapeAll(Decoded, a)) == EscapeAll(Decoded, FirstLine(a))
  {
    if a != "" {
      EscapedBreaks(a[1..]);
      var e, r := Escape(Decoded, a[0]), EscapeAll(Decoded, a[1..]);
      assert a == [a[0]] + a[1..];
      if a[0] != '\n' {
        FirstLineOf(e, r);
        assert FirstLine(a)[1..] == FirstLine(a[1..]);
      } else {
        assert (e + r)[0] == '\n';
      }
    }
  }

  /** A line break in an argument leaves its quote open. */
  lemma BrokenFirst(a: string, rest: string, all: bool)
    requires !NoBreak(a)
    ensures Split(Decoded, Chop(FirstLine(Quoted(Decoded, a) + rest), all)) == None
  {
    hide Split, Chop, EscapeAll, FirstLine, NoBreak;
    var e, b := EscapeAll(Decoded, a), FirstLine(a);
    BreakNeedsQuotes(a);
    EscapedBreaks(a);
    FirstLineStops(e, "\"" + rest);
    assert Quoted(Decoded, a) + rest == "\"" + (e + ("\"" + rest));
    FirstLineOf("\"", e + ("\"" + rest));
    QuoteStays(EscapeAll(Decoded, b), all);
    ChopEscaped(b, all);
    OpenQuote(Chop(b, all));
  }

  lemma BreakNeedsQuotes(a: string)
    requires !NoBreak(a)
    ensures NeedsQuotes(a) && NoBreak("\"")
  {
    var i :| 0 <= i < |a| && a[i] == '\n';
    assert IsSpace(a[i]);
  }

  lemma QuoteStays(v: string, all: bool)
    ensures Chop("\"" + v, all) == "\"" + Chop(v, all)
  {
    ChopFirst('"', v, all);
  }

  lemma OpenQuote(c: string)
    ensures Split(Decoded, "\"" + EscapeAll(Decoded, c)) == None
  {
    var s := "\"" + EscapeAll(Decoded, c);
    assert s[1..] == EscapeAll(Decoded, c) && EscapeAll(Decoded, c) + "" == EscapeAll(Decoded, c);
    WordOfEscaped(c, "", InDouble);
    WordAtEnd(Decoded, InDouble);
    WordNext(Decoded, s, Bare);
  }

  lemma {:induction false} FirstLineStops(s: string, rest: string)
    requires !NoBreak(s)
    ensures FirstLine(s + rest) == FirstLine(s)
  {
    if s[0] != '\n' {
      assert s == [s[0]] + s[1..];
      assert (s + rest)[1..] == s[1..] + rest;
      FirstLineStops(s[1..], rest);
    }
  }

  lemma {:induction false} ChopEscaped(a: string, all: bool)
    ensures Chop(EscapeAll(Decoded, a), all) == EscapeAll(Decoded, Chop(a, all))
  {
    if a != "" {
      ChopEscaped(a[1..], all);
      var e, r := Escape(Decoded, a[0]), EscapeAll(Decoded, a[1..]);
      var b := Chop(a[1..], all);
      ChopConcat(e, r, all);
      EscapedSome(b);
      assert ([a[0]] + b)[1..] == b;
      if Drops(a[0], all) {
        DropsIsSpace(a[0], all);
        assert e == [a[0]] && e[1..] == "";
      } else {
        assert a[0] != '\\' && a[0] != '"' ==> e == [a[0]] && e[1..] == "";
        assert e[1..] != "" ==> e[1..][1..] == "" && !IsSpace(e[0]) && !IsSpace(e[1]);
        assert Chop(e, all) == e;
        assert e + "" == e;
      }
    }
  }

  /** parseArgs on the line that joinArgs wrote, before the backslashes were doubled. */
  lemma {:induction false} JoinedLine(args: seq<string>, all: bool)
    ensures Split(Decoded, Chop(FirstLine(Join(Decoded, args)), all)) ==
            if NoBreaks(args) then Some(NonEmpty(args)) else None
    decreases |args|
  {
    if args == [] {
      assert NonEmpty(args) == [] && Split(Decoded, "") == Some([]);
    } else {
      var a, rest := args[0], if |args| == 1 then "" else " " + Join(Decoded, args[1..]);
      assert args == [a] + args[1..];
      assert NoBreaks(args) <==> NoBreak(a) && NoBreaks(args[1..]);
      assert Join(Decoded, args) == Quoted(Decoded, a) + rest;
      if !NoBreak(a) {
        BrokenFirst(a, rest, all);
      } else {
        JoinedLine(args[1..], all);
        JoinedRest(args[1..], rest, all);
        hide Join, Split, NoBreaks;
        FirstPart(a, rest, all);
        SplitFirst(a, Chop(FirstLine(rest), all));
      }
    }
  }

  lemma FirstPart(a: string, rest: string, all: bool)
    requires NoBreak(a)
    ensures Chop(FirstLine(Quoted(Decoded, a) + rest), all) == Quoted(Decoded, a) + Chop(FirstLine(rest), all)
  {
    var q := Quoted(Decoded, a);
    QuotedBreaks(a);
    FirstLineOf(q, rest);
    ChopConcat(q, FirstLine(rest), all);
    QuotedTrims(a);
    ChopNothing(q, all);
    assert q + "" == q;
  }

  lemma QuotedBreaks(a: string)
    requires NoBreak(a)
    ensures NoBreak(Quoted(Decoded, a))
  {
    EscapedBreaks(a);
  }

  lemma JoinedRest(args: seq<string>, rest: string, all: bool)
    requires rest == if args == [] then "" else " " + Join(Decoded, args)
    requires Split(Decoded, Chop(FirstLine(Join(Decoded, args)), all)) ==
             if NoBreaks(args) then Some(NonEmpty(args)) else None
    ensures var r := Chop(FirstLine(rest), all);
      (r == "" || IsSpace(r[0])) &&
      Split(Decoded, r) == if NoBreaks(args) then Some(NonEmpty(args)) else None
  {
    if args != [] {
      var l := FirstLine(Join(Decoded, args));
      FirstLineOf(" ", Join(Decoded, args));
      ChopConcat(" ", l, all);
      assert (" " + Chop(l, all))[1..] == Chop(l, all);
      assert Chop(" ", all) == "";
    }
  }

  /**
   * Whatever the arguments contain, splitArgs reads back the text that joinArgs wrote;
   * the list is unchanged exactly if no argument is empty. By way of a line of the
   * file, both genkdmconf and the daemon read it back exactly if no argument has a
   * line break.
   */
  lemma RoundTrip(args: seq<string>)
    ensures Split(Stored, Join(Stored, args)) == Some(NonEmpty(args))
    ensures Split(Stored, Join(Stored, args)) == Some(args) <==> "" !in args
    ensures var line := FirstLine(Join(Stored, args));
      && (Split(Stored, RawValue(line)) == Some(NonEmpty(args)) <==> NoBreaks(args))
      && (Split(Decoded, Value(line)) == Some(NonEmpty(args)) <==> NoBreaks(args))
  {
    var t := Join(Decoded, args);
    JoinIsDoubled(args);
    StoredReadsAsDecoded(t);
    ParseJoined(args);
    NonEmptyExactly(args);
    FirstLineDoubled(t);
    DoubledLine(FirstLine(t));
    JoinedLine(args, true);
    JoinedLine(args, false);
  }
}
