/**
 * Command lines as text: splitArgs and joinArgs of genkdmconf.c, and parseArgs
 * of util.c.
 *
 * The daemon's parseArgs reads a value that kdm_config.c has decoded; genkdmconf's
 * splitArgs reads it as it stands in the file. Both are `Split`, in one of two dialects.
 */
module Args {
  import opened Wrappers

  datatype Dialect =
    | Stored      // splitArgs
    | Decoded     // parseArgs

  datatype Quote = Bare | InSingle | InDouble

  /** isspace in the C locale */
  predicate IsSpace(c: char) {
    c == ' ' || c == '\t' || c == '\n' || c == '\U{0B}' || c == '\U{0C}' || c == '\r'
  }

  // ----- Reading -----

  /** How many backslashes one escape takes. */
  function Taken(dia: Dialect, s: string): (n: nat)
    requires s != "" && s[0] == '\\'
    ensures 1 <= n <= |s| && forall i :: 0 <= i < n ==> s[i] == '\\'
  {
    if dia == Decoded || |s| == 1 || s[1] != '\\' then 1
    else if |s| == 2 || s[2] != '\\' then 2
    else 3
  }

  datatype Read = Read(word: string, rest: string)

  function Prepend(c: char, r: Option<Read>): Option<Read> {
    match r
    case None => None
    case Some(x) => Some(Read([c] + x.word, x.rest))
  }

  /**
   * The word at the start of the text, with its quotes and escapes resolved. A
   * backslash at the end of the text stands for itself. None if a quote is not
   * closed: the C code then runs past the end of the text.
   */
  function Word(dia: Dialect, s: string, q: Quote): (r: Option<Read>)
    ensures r.Some? ==> |r.value.rest| <= |s|
    ensures r.Some? && s != "" && !(q == Bare && IsSpace(s[0])) ==> |r.value.rest| < |s|
    decreases |s|
  {
    if s == "" then (if q == Bare then Some(Read("", "")) else None)
    else if q == Bare && IsSpace(s[0]) then Some(Read("", s))
    else if q == Bare && s[0] == '\'' then Word(dia, s[1..], InSingle)
    else if q == Bare && s[0] == '"' then Word(dia, s[1..], InDouble)
    else if q == InSingle && s[0] == '\'' then Word(dia, s[1..], Bare)
    else if q == InDouble && s[0] == '"' then Word(dia, s[1..], Bare)
    else if q == InSingle && dia == Stored && |s| > 1 && s[0] == '\\' && s[1] == '\\' then
      Prepend('\\', Word(dia, s[2..], q))
    else if q != InSingle && s[0] == '\\' then
      var n := Taken(dia, s);
      if n < |s| then Prepend(s[n], Word(dia, s[n+1..], q)) else Prepend('\\', Word(dia, "", q))
    else
      Prepend(s[0], Word(dia, s[1..], q))
  }

  function Split(dia: Dialect, s: string): Option<seq<string>>
    decreases |s|
  {
    if s == "" then Some([])
    else if IsSpace(s[0]) then Split(dia, s[1..])
    else
      var r := Word(dia, s, Bare);
      if r.None? then None
      else
        var rest := Split(dia, r.value.rest);
        if rest.None? then None else Some([r.value.word] + rest.value)
  }

  // ----- Writing -----

  /** In the stored form every backslash is doubled once more. */
  function Escape(dia: Dialect, c: char): string {
    match dia
    case Stored => if c == '\\' then "\\\\\\\\" else if c == '"' then "\\\\\"" else [c]
    case Decoded => if c == '\\' then "\\\\" else if c == '"' then "\\\"" else [c]
  }

  function EscapeAll(dia: Dialect, s: string): string {
    if s == "" then "" else Escape(dia, s[0]) + EscapeAll(dia, s[1..])
  }

  predicate NeedsQuotes(s: string) {
    exists i :: 0 <= i < |s| && (IsSpace(s[i]) || s[i] == '\'')
  }

  function Quoted(dia: Dialect, s: string): string {
    if NeedsQuotes(s) then "\"" + EscapeAll(dia, s) + "\"" else EscapeAll(dia, s)
  }

  /** joinArgs, in the stored form. */
  function Join(dia: Dialect, args: seq<string>): string
    decreases |args|
  {
    if args == [] then ""
    else if |args| == 1 then Quoted(dia, args[0])
    else Quoted(dia, args[0]) + (" " + Join(dia, args[1..]))
  }

  /** Text that no reader takes for anything but itself. */
  predicate Plain(s: string) {
    forall i :: 0 <= i < |s| ==> !IsSpace(s[i]) && s[i] != '\'' && s[i] != '"' && s[i] != '\\'
  }

  /** Such an argument is written as it is; white space and quotes are the only reason for quotes around one. */
  lemma {:induction false} PlainStays(dia: Dialect, s: string)
    requires Plain(s)
    ensures EscapeAll(dia, s) == s && Quoted(dia, s) == s
  {
    if s != "" {
      PlainStays(dia, s[1..]);
      assert s == [s[0]] + s[1..];
    }
  }

  // ----- The stored form -----

  /** A text with every backslash doubled, as joinArgs writes it. */
  function Doubled(t: string): string {
    if t == "" then "" else (if t[0] == '\\' then "\\\\" else [t[0]]) + Doubled(t[1..])
  }

  lemma DoubledCons(c: char, t: string)
    ensures Doubled([c] + t) == (if c == '\\' then "\\\\" else [c]) + Doubled(t)
  {
    assert ([c] + t)[1..] == t;
  }

  lemma {:induction false} DoubledConcat(a: string, b: string)
    ensures Doubled(a + b) == Doubled(a) + Doubled(b)
  {
    if a == "" {
      assert a + b == b;
    } else {
      DoubledConcat(a[1..], b);
      var d := if a[0] == '\\' then "\\\\" else [a[0]];
      assert a + b == [a[0]] + (a[1..] + b);
      DoubledCons(a[0], a[1..] + b);
      hide Doubled;
      assert Doubled(a) == d + Doubled(a[1..]) by { DoubledCons(a[0], a[1..]); assert [a[0]] + a[1..] == a; }
      Regrouped(d, Doubled(a[1..]), Doubled(b));
    }
  }

  lemma Regrouped(a: string, b: string, c: string)
    ensures (a + b) + c == a + (b + c)
  {}

  lemma {:induction false} EscapeIsDoubled(s: string)
    ensures EscapeAll(Stored, s) == Doubled(EscapeAll(Decoded, s))
  {
    if s != "" {
      EscapeIsDoubled(s[1..]);
      var e := Escape(Decoded, s[0]);
      DoubledConcat(e, EscapeAll(Decoded, s[1..]));
      assert Escape(Stored, s[0]) == Doubled(e) by {
        if s[0] == '\\' || s[0] == '"' {
          assert e == ['\\'] + [s[0]];
          DoubledCons('\\', [s[0]]);
        }
        assert [s[0]][1..] == "";
      }
    }
  }

  lemma QuotedIsDoubled(s: string)
    ensures Quoted(Stored, s) == Doubled(Quoted(Decoded, s))
  {
    EscapeIsDoubled(s);
    if NeedsQuotes(s) {
      var e := EscapeAll(Decoded, s);
      DoubledConcat("\"" + e, "\"");
      DoubledConcat("\"", e);
      assert "\""[1..] == "";
    }
  }

  lemma {:induction false} JoinIsDoubled(args: seq<string>)
    ensures Join(Stored, args) == Doubled(Join(Decoded, args))
    decreases |args|
  {
    if args != [] {
      QuotedIsDoubled(args[0]);
      if |args| > 1 {
        JoinIsDoubled(args[1..]);
        DoubledConcat(Quoted(Decoded, args[0]), " " + Join(Decoded, args[1..]));
        DoubledCons(' ', Join(Decoded, args[1..]));
      }
    }
  }

  // ----- Reading what was written -----

  function NonEmpty(args: seq<string>): seq<string> {
    if args == [] then [] else (if args[0] == "" then [] else [args[0]]) + NonEmpty(args[1..])
  }

  function PrependAll(w: string, r: Option<Read>): Option<Read> {
    if r.None? then None else Some(Read(w + r.value.word, r.value.rest))
  }

  lemma PrependNothing(r: Option<Read>)
    ensures PrependAll("", r) == r
  {
    if r.Some? { assert "" + r.value.word == r.value.word; }
  }

  lemma PrependMore(c: char, w: string, r: Option<Read>)
    ensures Prepend(c, PrependAll(w, r)) == PrependAll([c] + w, r)
  {
    if r.Some? { assert [c] + (w + r.value.word) == ([c] + w) + r.value.word; }
  }

  /** Escaped text reads back, in double quotes or where there is nothing to quote. */
  lemma {:induction false} WordOfEscaped(a: string, rest: string, q: Quote)
    requires q == InDouble || (q == Bare && !NeedsQuotes(a))
    ensures Word(Decoded, EscapeAll(Decoded, a) + rest, q) == PrependAll(a, Word(Decoded, rest, q))
    decreases |a|
  {
    hide Word, Prepend, PrependAll;
    if a == "" {
      PrependNothing(Word(Decoded, rest, q));
      assert EscapeAll(Decoded, a) + rest == rest;
    } else {
      var c, b := a[0], a[1..];
      assert q == Bare ==> !NeedsQuotes(b) && !IsSpace(c) && c != '\'';
      hide NeedsQuotes;
      WordOfEscaped(b, rest, q);
      WordOfEscape(c, EscapeAll(Decoded, b) + rest, q);
      Regrouped(Escape(Decoded, c), EscapeAll(Decoded, b), rest);
      PrependMore(c, b, Word(Decoded, rest, q));
      assert a == [c] + b;
    }
  }

  lemma WordOfEscape(c: char, s1: string, q: Quote)
    requires q == InDouble || (q == Bare && !IsSpace(c) && c != '\'')
    ensures Word(Decoded, Escape(Decoded, c) + s1, q) == Prepend(c, Word(Decoded, s1, q))
  {
    var s := Escape(Decoded, c) + s1;
    if c == '\\' || c == '"' {
      assert s == ['\\', c] + s1 && s[2..] == s1;
    } else {
      assert s[1..] == s1;
    }
  }

  lemma WordOfQuoted(a: string, rest: string)
    requires rest == "" || IsSpace(rest[0])
    ensures Word(Decoded, Quoted(Decoded, a) + rest, Bare) == Some(Read(a, rest))
  {
    assert Word(Decoded, rest, Bare) == Some(Read("", rest)) && a + "" == a;
    if NeedsQuotes(a) {
      QuotesStripped(EscapeAll(Decoded, a), rest);
      WordOfEscaped(a, "\"" + rest, InDouble);
    } else {
      WordOfEscaped(a, rest, Bare);
    }
  }

  lemma QuotesStripped(e: string, rest: string)
    ensures var tail := "\"" + rest;
      && Word(Decoded, tail, InDouble) == Word(Decoded, rest, Bare)
      && Word(Decoded, ("\"" + e + "\"") + rest, Bare) == Word(Decoded, e + tail, InDouble)
  {
    var tail := "\"" + rest;
    var s := ("\"" + e + "\"") + rest;
    assert tail[1..] == rest;
    assert s[0] == '"' && s[1..] == e + tail;
  }

  lemma QuotedStart(a: string)
    requires a != ""
    ensures Quoted(Decoded, a) != "" && !IsSpace(Quoted(Decoded, a)[0])
  {
    if !NeedsQuotes(a) { assert !IsSpace(a[0]); }
  }

  lemma SplitFirst(a: string, rest: string)
    requires rest == "" || IsSpace(rest[0])
    ensures var r := Split(Decoded, rest);
      Split(Decoded, Quoted(Decoded, a) + rest) ==
      if r.None? then None else Some((if a == "" then [] else [a]) + r.value)
  {
    var s := Quoted(Decoded, a) + rest;
    if a == "" {
      assert s == rest;
      if Split(Decoded, rest).Some? { assert [] + Split(Decoded, rest).value == Split(Decoded, rest).value; }
    } else {
      QuotedStart(a);
      WordOfQuoted(a, rest);
    }
  }

  /** parseArgs reads back every argument but the empty ones, which leave no trace. */
  lemma {:induction false} ParseJoined(args: seq<string>)
    ensures Split(Decoded, Join(Decoded, args)) == Some(NonEmpty(args))
    decreases |args|
  {
    if args != [] {
      var rest := if |args| == 1 then "" else " " + Join(Decoded, args[1..]);
      assert Join(Decoded, args) == Quoted(Decoded, args[0]) + rest;
      SplitFirst(args[0], rest);
      if |args| == 1 {
        assert NonEmpty(args[1..]) == [];
      } else {
        assert rest[1..] == Join(Decoded, args[1..]);
        ParseJoined(args[1..]);
      }
    }
  }

  lemma {:induction false} NonEmptyExactly(args: seq<string>)
    ensures |NonEmpty(args)| <= |args| && (NonEmpty(args) == args <==> "" !in args)
  {
    if args != [] {
      NonEmptyExactly(args[1..]);
      assert args == [args[0]] + args[1..];
      if args[0] != "" && NonEmpty(args) == args {
        assert NonEmpty(args)[1..] == NonEmpty(args[1..]);
      }
    }
  }
}
