/**
 * The loops of splitArgs, joinArgs and parseArgs over C strings: a first pass that
 * counts and a second one that fills a buffer of the counted size.
 */
module ArgsBuffers {
  import opened Wrappers
  import opened CStrings
  import opened Args

  /** Having emitted `done` and being at p, the reader will end up with w. */
  ghost predicate Reading(w: Read, done: string, dia: Dialect, t: string, p: nat, q: Quote) {
    p <= |t| && PrependAll(done, Word(dia, t[p..], q)) == Some(w)
  }

  lemma ReadOn(w: Read, done: string, dia: Dialect, t: string, p: nat, q: Quote, c: char, p': nat)
    requires Reading(w, done, dia, t, p, q) && p' <= |t|
    requires Word(dia, t[p..], q) == Prepend(c, Word(dia, t[p'..], q))
    ensures Reading(w, done + [c], dia, t, p', q) && |done| < |w.word|
  {
    var r := Word(dia, t[p'..], q).value;
    assert done + ([c] + r.word) == (done + [c]) + r.word;
  }

  /** The character at p stands for itself. */
  predicate Ordinary(c: char, q: Quote) {
    match q
    case Bare => c != '\\' && c != '\'' && c != '"' && !IsSpace(c)
    case InSingle => c != '\\' && c != '\''
    case InDouble => c != '\\' && c != '"'
  }

  lemma WordAtOrdinary(dia: Dialect, t: string, p: nat, q: Quote)
    requires p < |t| && Ordinary(t[p], q)
    ensures Word(dia, t[p..], q) == Prepend(t[p], Word(dia, t[p+1..], q))
  {
    assert t[p..][1..] == t[p+1..];
  }

  lemma WordAtQuote(dia: Dialect, t: string, p: nat, q: Quote, q': Quote)
    requires p < |t|
    requires (q == Bare && q' == InSingle && t[p] == '\'') || (q == Bare && q' == InDouble && t[p] == '"') ||
             (q == InSingle && q' == Bare && t[p] == '\'') || (q == InDouble && q' == Bare && t[p] == '"')
    ensures Word(dia, t[p..], q) == Word(dia, t[p+1..], q')
  {
    assert t[p..][1..] == t[p+1..];
  }

  /** A backslash in single quotes: only a doubled one, and only in the stored form, is special. */
  lemma WordAtSingle(dia: Dialect, t: string, p: nat)
    requires p < |t| && t[p] == '\\'
    ensures var p' := if dia == Stored && p + 1 < |t| && t[p+1] == '\\' then p + 2 else p + 1;
      Word(dia, t[p..], InSingle) == Prepend('\\', Word(dia, t[p'..], InSingle))
  {
    assert t[p..][1..] == t[p+1..];
    if p + 1 < |t| { assert t[p..][2..] == t[p+2..]; }
  }

  lemma WordAtBackslash(dia: Dialect, t: string, p: nat, e: nat, q: Quote)
    requires p < |t| && t[p] == '\\' && q != InSingle
    requires var n := Taken(dia, t[p..]); e == if p + n < |t| then p + n else |t| - 1
    ensures e < |t| && Word(dia, t[p..], q) == Prepend(t[e], Word(dia, t[e+1..], q))
  {
    var s := t[p..];
    var n := Taken(dia, s);
    if p + n < |t| {
      assert s[n+1..] == t[e+1..];
    } else {
      assert t[|t|..] == "";
    }
  }

  /** From the backslash at p to the character that the escape stands for. */
  method Unescape(dia: Dialect, a: seq<char>, p: nat) returns (e: nat)
    requires IsCString(a) && p < |Text(a)| && a[p] == '\\'
    ensures p <= e < |Text(a)|
    ensures var n := Taken(dia, Text(a)[p..]); e == if p + n < |Text(a)| then p + n else |Text(a)| - 1
  {
    e := p;
    if dia == Stored {
      e := e + 1;
      if a[e] != '\\' { e := e - 1; }
      e := e + 1;
      if a[e] != '\\' { e := e - 1; }
    }
    e := e + 1;
    if a[e] == '\0' { e := e - 1; }
  }

  /** `*str++ = c`, or `wlen++` in the first pass. */
  method Emit(str: array?<char>, n: nat, c: char) returns (n': nat)
    requires str != null ==> n < str.Length
    modifies if str == null then {} else {str}
    ensures n' == n + 1 && (str != null ==> str[..n'] == old(str[..n]) + [c])
  {
    if str != null {
      str[n] := c;
      assert str[..n+1] == str[..n] + [c];
    }
    n' := n + 1;
  }

  /** One character of a word: an escape or itself. */
  method TakeChar(dia: Dialect, a: seq<char>, p0: nat, q: Quote, str: array?<char>, n0: nat,
                  ghost w: Read, ghost done0: string)
    returns (n: nat, p: nat)
    requires IsCString(a) && Reading(w, done0, dia, Text(a), p0, q) && |done0| == n0 && p0 < |Text(a)|
    requires a[p0] == '\\' || Ordinary(a[p0], q)
    requires str != null ==> str.Length > |w.word| && str[..n0] == done0
    modifies if str == null then {} else {str}
    ensures p0 < p <= |Text(a)| && n == n0 + 1 <= |w.word| && Reading(w, done0 + [a[p-1]], dia, Text(a), p, q)
    ensures str != null ==> str[..n] == done0 + [a[p-1]]
  {
    hide Word, Taken;
    ghost var t := Text(a);
    p := p0;
    if a[p] == '\\' {
      if q != InSingle {
        p := Unescape(dia, a, p);
        WordAtBackslash(dia, t, p0, p, q);
      } else {
        WordAtSingle(dia, t, p);
        if dia == Stored {
          p := p + 1;
          if a[p] != '\\' { p := p - 1; }
        }
      }
    } else {
      WordAtOrdinary(dia, t, p, q);
    }
    ReadOn(w, done0, dia, t, p0, q, a[p], p + 1);
    n := Emit(str, n0, a[p]);
    p := p + 1;
  }

  /** From behind an opening quote to behind the closing one. */
  method QuotedPart(dia: Dialect, a: seq<char>, p0: nat, q: Quote, str: array?<char>, n0: nat,
                    ghost w: Read, ghost done0: string)
    returns (n: nat, p: nat, ghost done: string)
    requires IsCString(a) && q != Bare && Reading(w, done0, dia, Text(a), p0, q) && |done0| == n0
    requires str != null ==> str.Length > |w.word| && str[..n0] == done0
    modifies if str == null then {} else {str}
    ensures Reading(w, done, dia, Text(a), p, Bare) && |done| == n && p0 < p <= |Text(a)|
    ensures str != null ==> str[..n] == done
  {
    hide Reading;
    ghost var t := Text(a);
    n, p, done := n0, p0, done0;
    ReadBounds(w, done, dia, t, p, q);
    NotAtEnd(w, done, dia, t, p, q);
    while a[p] != (if q == InSingle then '\'' else '"')
      invariant Reading(w, done, dia, t, p, q) && |done| == n && p0 <= p < |t|
      invariant str != null ==> n < str.Length && str[..n] == done
      decreases |t| - p
    {
      n, p := TakeChar(dia, a, p, q, str, n, w, done);
      done := done + [a[p-1]];
      NotAtEnd(w, done, dia, t, p, q);
    }
    QuoteCloses(w, done, dia, t, p, q);
    p := p + 1;
  }

  lemma QuoteCloses(w: Read, done: string, dia: Dialect, t: string, p: nat, q: Quote)
    requires Reading(w, done, dia, t, p, q) && p < |t|
    requires (q == InSingle && t[p] == '\'') || (q == InDouble && t[p] == '"')
    ensures Reading(w, done, dia, t, p + 1, Bare)
  {
    WordAtQuote(dia, t, p, q, Bare);
  }

  lemma QuoteOpens(w: Read, done: string, dia: Dialect, t: string, p: nat, q: Quote)
    requires Reading(w, done, dia, t, p, Bare) && p < |t|
    requires (q == InSingle && t[p] == '\'') || (q == InDouble && t[p] == '"')
    ensures Reading(w, done, dia, t, p + 1, q)
  {
    WordAtQuote(dia, t, p, Bare, q);
  }

  /** Inside quotes, the end of the text is not reached. */
  lemma NotAtEnd(w: Read, done: string, dia: Dialect, t: string, p: nat, q: Quote)
    requires Reading(w, done, dia, t, p, q) && q != Bare
    ensures p < |t|
  {}

  /** One pass over the word at p0; the sources have this loop twice, with and without `str`. */
  method Pass(dia: Dialect, a: seq<char>, p0: nat, str: array?<char>, ghost w: Read) returns (n: nat, p: nat)
    requires IsCString(a) && p0 <= |Text(a)| && Word(dia, Text(a)[p0..], Bare) == Some(w)
    requires str != null ==> str.Length > |w.word|
    modifies if str == null then {} else {str}
    ensures n == |w.word| && p <= |Text(a)| && Text(a)[p..] == w.rest
    ensures str != null ==> str[..n] == w.word
  {
    hide Reading;
    ghost var t, done := Text(a), "";
    n, p := 0, p0;
    ReadStart(dia, t, p0, w);
    while a[p] != '\0' && !IsSpace(a[p])
      invariant Reading(w, done, dia, t, p, Bare) && |done| == n && p <= |t|
      invariant str != null ==> n < str.Length && str[..n] == done
      decreases |t| - p
    {
      AtText(a, p);
      if a[p] == '\'' || a[p] == '"' {
        var q := if a[p] == '\'' then InSingle else InDouble;
        QuoteOpens(w, done, dia, t, p, q);
        n, p, done := QuotedPart(dia, a, p + 1, q, str, n, w, done);
      } else {
        n, p := TakeChar(dia, a, p, Bare, str, n, w, done);
        done := done + [a[p-1]];
      }
      ReadBounds(w, done, dia, t, p, Bare);
    }
    AtText(a, p);
    WordEnds(w, done, dia, t, p);
  }

  lemma AtText(a: seq<char>, p: nat)
    requires IsCString(a) && p <= |Text(a)|
    ensures a[p] == '\0' <==> p == |Text(a)|
  {}

  lemma ReadStart(dia: Dialect, t: string, p: nat, w: Read)
    requires p <= |t| && Word(dia, t[p..], Bare) == Some(w)
    ensures Reading(w, "", dia, t, p, Bare)
  {
    PrependNothing(Word(dia, t[p..], Bare));
  }

  lemma ReadBounds(w: Read, done: string, dia: Dialect, t: string, p: nat, q: Quote)
    requires Reading(w, done, dia, t, p, q)
    ensures p <= |t| && |done| <= |w.word|
  {}

  lemma WordEnds(w: Read, done: string, dia: Dialect, t: string, p: nat)
    requires Reading(w, done, dia, t, p, Bare) && (p == |t| || IsSpace(t[p]))
    ensures w == Read(done, t[p..])
  {
    assert done + "" == done;
  }

  /** splitArgs and parseArgs, on text whose quotes are closed. */
  method SplitArgs(dia: Dialect, a: seq<char>) returns (args: seq<string>)
    requires IsCString(a) && Split(dia, Text(a)).Some?
    ensures Split(dia, Text(a)) == Some(args)
  {
    ghost var t := Text(a);
    var p := 0;
    args := [];
    assert t[0..] == t;
    while a[p] != '\0'
      invariant p <= |t| && Split(dia, t[p..]).Some? && args + Split(dia, t[p..]).value == Split(dia, t).value
      decreases |t| - p
    {
      SplitAt(dia, t, p);
      if IsSpace(a[p]) {
        p := p + 1;
      } else {
        ghost var w := Word(dia, t[p..], Bare).value;
        ghost var rest := Split(dia, w.rest).value;
        var wlen, end := Pass(dia, a, p, null, w);
        var str := new char[wlen + 1];
        wlen, p := Pass(dia, a, p, str, w);
        str[wlen] := '\0';
        assert str[..wlen] == w.word;
        assert args + ([w.word] + rest) == (args + [w.word]) + rest;
        args := args + [str[..wlen]];
      }
    }
    assert t[p..] == "" && args + [] == args;
  }

  lemma SplitAt(dia: Dialect, t: string, p: nat)
    requires p < |t| && Split(dia, t[p..]).Some?
    ensures IsSpace(t[p]) ==> Split(dia, t[p..]) == Split(dia, t[p+1..])
    ensures !IsSpace(t[p]) ==>
      var r := Word(dia, t[p..], Bare);
      && r.Some? && |r.value.rest| < |t| - p && Split(dia, r.value.rest).Some?
      && Split(dia, t[p..]).value == [r.value.word] + Split(dia, r.value.rest).value
  {
    assert t[p..][1..] == t[p+1..];
  }

  // ----- joinArgs -----

  lemma {:induction false} EscapeConcat(a: string, b: string)
    ensures EscapeAll(Stored, a + b) == EscapeAll(Stored, a) + EscapeAll(Stored, b)
  {
    if a == "" {
      assert a + b == b;
    } else {
      EscapeConcat(a[1..], b);
      assert (a + b)[1..] == a[1..] + b;
      Regrouped(Escape(Stored, a[0]), EscapeAll(Stored, a[1..]), EscapeAll(Stored, b));
    }
  }

  lemma EscapeNext(s: string, i: nat)
    requires i < |s|
    ensures EscapeAll(Stored, s[..i+1]) == EscapeAll(Stored, s[..i]) + Escape(Stored, s[i])
    ensures NeedsQuotes(s[..i+1]) <==> NeedsQuotes(s[..i]) || IsSpace(s[i]) || s[i] == '\''
  {
    EscapeConcat(s[..i], [s[i]]);
    assert [s[i]][1..] == "" && s[..i] + [s[i]] == s[..i+1];
    var t, u := s[..i], s[..i+1];
    if NeedsQuotes(t) {
      var j :| 0 <= j < |t| && (IsSpace(t[j]) || t[j] == '\'');
      assert u[j] == t[j];
    }
    if IsSpace(s[i]) || s[i] == '\'' { assert u[i] == s[i]; }
    if NeedsQuotes(u) && !IsSpace(s[i]) && s[i] != '\'' {
      var j :| 0 <= j < |u| && (IsSpace(u[j]) || u[j] == '\'');
      assert t[j] == u[j];
    }
  }

  method MeasureArg(s: string) returns (n: nat)
    ensures n == |Quoted(Stored, s)|
  {
    n := 0;
    var nq := 0;
    for i := 0 to |s|
      invariant n == |EscapeAll(Stored, s[..i])| && nq == if NeedsQuotes(s[..i]) then 2 else 0
    {
      EscapeNext(s, i);
      if IsSpace(s[i]) || s[i] == '\'' {
        nq := 2;
      } else if s[i] == '"' {
        n := n + 2;
      } else if s[i] == '\\' {
        n := n + 3;
      }
      n := n + 1;
    }
    assert s[..|s|] == s;
    n := n + nq;
  }

  method Append(buf: array<char>, pos: nat, c: char) returns (end: nat)
    requires pos < buf.Length
    modifies buf
    ensures end == pos + 1 && buf[..end] == old(buf[..pos]) + [c]
  {
    buf[pos] := c;
    end := pos + 1;
    assert buf[..end] == buf[..pos] + [c];
  }

  method AppendEscaped(buf: array<char>, pos: nat, c: char) returns (end: nat)
    requires pos + |Escape(Stored, c)| <= buf.Length
    modifies buf
    ensures end == pos + |Escape(Stored, c)| && buf[..end] == old(buf[..pos]) + Escape(Stored, c)
  {
    end := pos;
    ghost var front := buf[..pos];
    if c == '\\' {
      end := Append(buf, end, '\\');
    }
    if c == '"' || c == '\\' {
      end := Append(buf, end, '\\');
      end := Append(buf, end, '\\');
    }
    end := Append(buf, end, c);
    assert buf[..end] == front + Escape(Stored, c);
  }

  method AppendArg(buf: array<char>, pos: nat, s: string) returns (end: nat)
    requires pos + |Quoted(Stored, s)| <= buf.Length
    modifies buf
    ensures end == pos + |Quoted(Stored, s)| && buf[..end] == old(buf[..pos]) + Quoted(Stored, s)
  {
    ghost var front := buf[..pos];
    var nq := false;
    for i := 0 to |s|
      invariant nq <==> NeedsQuotes(s[..i])
      modifies {}
    {
      EscapeNext(s, i);
      if IsSpace(s[i]) || s[i] == '\'' { nq := true; }
    }
    assert s[..|s|] == s;
    end := pos;
    if nq { end := Append(buf, end, '"'); }
    ghost var open := if nq then "\"" else "";
    assert front + "" == front && buf[..end] == front + open;
    hide NeedsQuotes, Escape;
    end := AppendAll(buf, end, s);
    Regrouped(front, open, EscapeAll(Stored, s));
    if nq {
      end := Append(buf, end, '"');
      Regrouped(front, open + EscapeAll(Stored, s), "\"");
    } else {
      assert open + EscapeAll(Stored, s) == EscapeAll(Stored, s);
    }
  }

  method AppendAll(buf: array<char>, pos: nat, s: string) returns (end: nat)
    requires pos + |EscapeAll(Stored, s)| <= buf.Length
    modifies buf
    ensures end == pos + |EscapeAll(Stored, s)| && buf[..end] == old(buf[..pos]) + EscapeAll(Stored, s)
  {
    end := pos;
    ghost var front := buf[..pos];
    assert front + "" == front;
    for i := 0 to |s|
      invariant end == pos + |EscapeAll(Stored, s[..i])| && end <= buf.Length
      invariant buf[..end] == front + EscapeAll(Stored, s[..i])
    {
      EscapeNext(s, i);
      assert s == s[..i+1] + s[i+1..];
      EscapeConcat(s[..i+1], s[i+1..]);
      hide EscapeAll, Escape;
      end := AppendEscaped(buf, end, s[i]);
      Regrouped(front, EscapeAll(Stored, s[..i]), Escape(Stored, s[i]));
    }
    assert s[..|s|] == s;
  }

  /** What joinArgs has still to write before argument i. */
  function Rest(argv: seq<string>, i: nat): string
    requires i <= |argv|
  {
    if i == |argv| then "" else (if i == 0 then "" else " ") + Join(Stored, argv[i..])
  }

  lemma RestStep(argv: seq<string>, i: nat)
    requires i < |argv|
    ensures Rest(argv, i) == (if i == 0 then "" else " ") + (Quoted(Stored, argv[i]) + Rest(argv, i + 1))
  {
    var args := argv[i..];
    assert args[0] == argv[i] && args[1..] == argv[i+1..];
    assert Quoted(Stored, args[0]) + "" == Quoted(Stored, args[0]);
  }

  lemma RestAll(argv: seq<string>)
    ensures Rest(argv, 0) == Join(Stored, argv)
  {
    assert argv[0..] == argv && "" + Join(Stored, argv) == Join(Stored, argv);
  }

  lemma RestEnd(argv: seq<string>)
    ensures Rest(argv, |argv|) == ""
  {}

  method MeasureArgs(argv: seq<string>) returns (slen: nat)
    requires argv != []
    ensures slen == |Join(Stored, argv)| + 2
  {
    hide Rest, Join, Quoted;
    slen := 1;
    RestAll(argv);
    RestEnd(argv);
    for i := 0 to |argv|
      invariant slen + |Rest(argv, i)| == |Join(Stored, argv)| + if i == 0 then 1 else 2
    {
      RestStep(argv, i);
      var n := MeasureArg(argv[i]);
      slen := slen + n + 1;
    }
  }

  /** The text fits the measured size, with one character to spare behind the NUL. */
  method JoinArgs(argv: seq<string>) returns (text: string)
    ensures text == Join(Stored, argv)
  {
    if argv == [] { return ""; }
    var slen := MeasureArgs(argv);
    var str := new char[slen];
    var pos: nat := 0;
    RestAll(argv);
    hide Join, Quoted, Rest;
    RestEnd(argv);
    NothingBefore(str[..pos], Rest(argv, 0));
    for i := 0 to |argv|
      invariant pos <= slen - 2 && str[..pos] + Rest(argv, i) == Join(Stored, argv)
    {
      pos := AppendNext(str, pos, argv, i, Join(Stored, argv));
    }
    text := str[..pos];
    NothingBehind(text, Rest(argv, |argv|));
    str[pos] := '\0';
  }

  lemma NothingBefore(a: string, b: string)
    requires a == ""
    ensures a + b == b
  {}

  lemma NothingBehind(a: string, b: string)
    requires b == ""
    ensures a + b == a
  {}

  method AppendNext(str: array<char>, pos: nat, argv: seq<string>, i: nat, ghost all: string) returns (end: nat)
    requires i < |argv| && str.Length == |all| + 2 && pos <= |all| && str[..pos] + Rest(argv, i) == all
    modifies str
    ensures end <= |all| && str[..end] + Rest(argv, i + 1) == all
  {
    RestStep(argv, i);
    ghost var front, sep := str[..pos], if i == 0 then "" else " ";
    ghost var q, rest := Quoted(Stored, argv[i]), Rest(argv, i + 1);
    hide Rest, Quoted, Join;
    assert |front| + |sep| + |q| + |rest| == |all|;
    end := AppendSep(str, pos, i > 0);
    end := AppendArg(str, end, argv[i]);
    RegroupedFour(front, sep, q, rest);
  }

  lemma RegroupedFour(a: string, b: string, c: string, d: string)
    ensures a + (b + (c + d)) == ((a + b) + c) + d
  {}

  method AppendSep(str: array<char>, pos: nat, more: bool) returns (end: nat)
    requires pos < str.Length
    modifies str
    ensures end <= str.Length && str[..end] == old(str[..pos]) + (if more then " " else "")
  {
    end := pos;
    ghost var front := str[..pos];
    assert front + "" == front && " " == [' '];
    if more { end := Append(str, end, ' '); }
  }
}
