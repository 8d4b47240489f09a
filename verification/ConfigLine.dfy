/**
 * A value in the configuration file: readConfig of genkdmconf.c takes it as it stands
 * on its line, readConfig of kdm_config.c decodes it in place.
 */
module ConfigLine {
  import opened Args

  /** What a file keeps of a text on one line. */
  function FirstLine(s: string): string {
    if s == "" || s[0] == '\n' then "" else [s[0]] + FirstLine(s[1..])
  }

  /** genkdmconf drops all white space at the end of a line, the daemon only blanks and tabs. */
  predicate Drops(c: char, all: bool) {
    if all then IsSpace(c) else c == ' ' || c == '\t'
  }

  function Skip(s: string): string {
    if s != "" && IsSpace(s[0]) then Skip(s[1..]) else s
  }

  function Chop(s: string, all: bool): (r: string)
    ensures |r| <= |s| && r == s[..|r|]
  {
    if s == "" then ""
    else
      var r := Chop(s[1..], all);
      if r == "" && Drops(s[0], all) then "" else [s[0]] + r
  }

  /** What genkdmconf takes for the value: the text behind the '=', without the white space around it. */
  function RawValue(line: string): string {
    Chop(Skip(line), true)
  }

  /** The white space behind it. */
  function Tail(line: string): string {
    Skip(line)[|RawValue(line)|..]
  }

  function Meant(c: char): string {
    match c
    case 's' => " "
    case 't' => "\t"
    case 'n' => "\n"
    case 'r' => "\r"
    case '\\' => "\\"
    case _ => ['\\', c]
  }

  /** What the daemon makes of it. Blanks at the end go, unless they are escaped, and so does a lone backslash. */
  function Decode(s: string): string {
    if s == "" then ""
    else if s[0] == '\\' then (if |s| == 1 then "" else Meant(s[1]) + Decode(s[2..]))
    else
      var r := Decode(s[1..]);
      if r == "" && Drops(s[0], false) then "" else [s[0]] + r
  }

  function Value(line: string): string {
    Decode(Skip(line))
  }

  // ----- Every text has a line -----

  function EncodedChar(c: char): (e: string)
    ensures 1 <= |e| <= 2 && (|e| == 2 ==> e[0] == '\\' && Meant(e[1]) == [c]) && (|e| == 1 ==> e == [c] && c != '\\')
    ensures '\n' !in e && (Drops(c, false) ==> |e| == 2)
  {
    match c
    case ' ' => "\\s"
    case '\t' => "\\t"
    case '\n' => "\\n"
    case '\r' => "\\r"
    case '\\' => "\\\\"
    case _ => [c]
  }

  /** White space and backslashes written as escapes. */
  function Encoded(t: string): string {
    if t == "" then "" else EncodedChar(t[0]) + Encoded(t[1..])
  }

  lemma {:induction false} DecodeEncoded(t: string)
    ensures Decode(Encoded(t)) == t
  {
    if t != "" {
      var s, e, r := Encoded(t), EncodedChar(t[0]), Encoded(t[1..]);
      DecodeEncoded(t[1..]);
      hide EncodedChar, Meant, Drops;
      if |e| == 2 { assert s[2..] == r; } else { assert s[1..] == r; }
      assert t == [t[0]] + t[1..];
    }
  }

  predicate NoBreak(s: string) {
    '\n' !in s
  }

  lemma {:induction false} FirstLineOf(s: string, rest: string)
    requires NoBreak(s)
    ensures FirstLine(s + rest) == s + FirstLine(rest)
  {
    if s == "" {
      assert s + rest == rest && s + FirstLine(rest) == FirstLine(rest);
    } else {
      assert s == [s[0]] + s[1..] && s[0] in s;
      assert (s + rest)[1..] == s[1..] + rest;
      FirstLineOf(s[1..], rest);
      assert [s[0]] + (s[1..] + FirstLine(rest)) == s + FirstLine(rest);
    }
  }

  lemma {:induction false} EncodedIsOneLine(t: string)
    ensures FirstLine(Encoded(t)) == Encoded(t)
  {
    if t != "" {
      EncodedIsOneLine(t[1..]);
      hide FirstLine, EncodedChar;
      FirstLineOf(EncodedChar(t[0]), Encoded(t[1..]));
    }
  }

  /** Whatever a text holds, the daemon reads it back from a line on which it is written with escapes. */
  lemma ValueOfEncoded(t: string)
    requires t == "" || t[0] !in {'\U{0B}', '\U{0C}'}
    ensures Value(FirstLine(Encoded(t))) == t
  {
    EncodedIsOneLine(t);
    DecodeEncoded(t);
  }

  // ----- The loops -----

  /** The line that begins at a place in a text. */
  lemma {:induction false} FirstLineIs(s: string)
    ensures var l := FirstLine(s);
      && |l| <= |s| && l == s[..|l|] && (|l| == |s| || s[|l|] == '\n')
      && forall i :: 0 <= i < |l| ==> s[i] != '\n'
  {
    if s != "" && s[0] != '\n' {
      FirstLineIs(s[1..]);
      var l := FirstLine(s[1..]);
      assert s[|l|+1..] == s[1..][|l|..];
      forall i | 0 <= i < |l| + 1 ensures s[i] != '\n' { if i > 0 { assert s[i] == s[1..][i-1]; } }
    }
  }

  /** Past the white space in front of a value. */
  method SkipSpaces(a: array<char>, start: nat, eof: nat) returns (s: nat, ghost last: nat)
    requires start <= eof <= a.Length
    ensures start <= s <= last <= eof && a[s..last] == Skip(FirstLine(a[start..eof]))
    ensures (last < eof ==> a[last] == '\n') && forall j :: s <= j < last ==> a[j] != '\n'
  {
    s := start;
    ghost var text := a[start..eof];
    ghost var line := FirstLine(text);
    FirstLineIs(text);
    last := start + |line|;
    assert forall j :: start <= j < eof ==> a[j] == text[j-start];
    assert line[0..] == line && line == a[start..last];
    while s < eof && IsSpace(a[s]) && a[s] != '\n'
      invariant start <= s <= last && Skip(line) == Skip(line[s-start..])
    {
      assert line[s-start..][1..] == line[s+1-start..];
      s := s + 1;
    }
    assert line[s-start..] == a[s..last];
  }

  lemma ChopStep(v: string, n: nat)
    requires 0 < n <= |v| && IsSpace(v[n-1])
    ensures Chop(v[..n], true) == Chop(v[..n-1], true)
  {
    ChopBack(v[..n-1], v[n-1]);
    assert v[..n-1] + [v[n-1]] == v[..n];
  }

  lemma {:induction false} ChopBack(u: string, c: char)
    requires IsSpace(c)
    ensures Chop(u + [c], true) == Chop(u, true)
  {
    if u == "" {
      assert u + [c] == [c] && [c][1..] == "";
    } else {
      assert (u + [c])[1..] == u[1..] + [c];
      ChopBack(u[1..], c);
    }
  }

  lemma {:induction false} ChopNothing(u: string, all: bool)
    requires u == "" || !IsSpace(u[|u|-1])
    ensures Chop(u, all) == u
  {
    if u != "" {
      ChopNothing(u[1..], all);
      if u[1..] == "" { assert u == [u[0]]; }
      assert u == [u[0]] + u[1..];
    }
  }

  /** genkdmconf's readConfig, behind the '='. */
  method RawLine(a: array<char>, start: nat, eof: nat) returns (st: nat, en: nat)
    requires start <= eof <= a.Length
    ensures start <= st <= en <= eof && a[st..en] == RawValue(FirstLine(a[start..eof]))
  {
    ghost var last;
    st, last := SkipSpaces(a, start, eof);
    var s := st;
    while s < eof && a[s] != '\n'
      invariant st <= s <= last
    {
      s := s + 1;
    }
    en := RawEnd(a, st, s);
  }

  method RawEnd(a: array<char>, st: nat, s: nat) returns (en: nat)
    requires st <= s <= a.Length
    ensures st <= en <= s && a[st..en] == Chop(a[st..s], true)
  {
    hide Chop, IsSpace;
    en := s;
    while en > st && IsSpace(a[en-1])
      invariant st <= en <= s && Chop(a[st..en], true) == Chop(a[st..s], true)
    {
      assert a[st..en][..en-st-1] == a[st..en-1];
      ChopStep(a[st..en], en - st);
      assert a[st..en][..en-st] == a[st..en];
      en := en - 1;
    }
    ChopNothing(a[st..en], true);
  }

  /** Kept text, blanks that may still be dropped, and the rest. */
  function Glued(kept: string, blanks: string, rest: string): string {
    if rest == "" then kept else kept + blanks + rest
  }

  lemma GluedEscape(kept: string, blanks: string, v: string)
    requires |v| > 1 && v[0] == '\\'
    ensures Glued(kept, blanks, Decode(v)) == Glued(kept + blanks + Meant(v[1]), "", Decode(v[2..]))
  {
    var r := Decode(v[2..]);
    assert kept + blanks + (Meant(v[1]) + r) == kept + blanks + Meant(v[1]) + r;
    assert kept + blanks + Meant(v[1]) + "" == kept + blanks + Meant(v[1]);
  }

  lemma GluedPlain(kept: string, blanks: string, v: string)
    requires v != "" && v[0] != '\\'
    ensures Glued(kept, blanks, Decode(v)) ==
      if Drops(v[0], false) then Glued(kept, blanks + [v[0]], Decode(v[1..]))
      else Glued(kept + blanks + [v[0]], "", Decode(v[1..]))
  {
    var r := Decode(v[1..]);
    assert kept + blanks + ([v[0]] + r) == kept + (blanks + [v[0]]) + r == kept + blanks + [v[0]] + "" + r;
    assert kept + blanks + ([v[0]] + "") == kept + blanks + [v[0]];
  }

  /** Writes what a backslash and a letter stand for over what has been read. */
  method PutMeant(a: array<char>, st: nat, pt: nat, s: nat) returns (next: nat)
    requires st <= pt < s < a.Length
    modifies a
    ensures pt <= next <= s + 1 && a[st..next] == old(a[st..pt]) + Meant(old(a[s]))
    ensures forall j :: s < j < a.Length ==> a[j] == old(a[j])
  {
    var c := a[s];
    match c {
      case 's' => a[pt] := ' ';
      case 't' => a[pt] := '\t';
      case 'n' => a[pt] := '\n';
      case 'r' => a[pt] := '\r';
      case '\\' => a[pt] := '\\';
      case _ => a[pt], a[pt+1] := '\\', c;
    }
    next := if c == 's' || c == 't' || c == 'n' || c == 'r' || c == '\\' then pt + 1 else pt + 2;
  }

  /** The body of the loop, behind a backslash. */
  method OneEscape(a: array<char>, st: nat, en: nat, pt: nat, s: nat, ghost v: string) returns (next: nat)
    requires st <= en <= pt < s < a.Length && |v| > 1 && v[0] == '\\' && v[1] == a[s]
    modifies a
    ensures pt <= next <= s + 1 && forall j :: s < j < a.Length ==> a[j] == old(a[j])
    ensures Glued(a[st..next], "", Decode(v[2..])) == old(Glued(a[st..en], a[en..pt], Decode(v)))
  {
    GluedEscape(a[st..en], a[en..pt], v);
    assert a[st..en] + a[en..pt] == a[st..pt];
    hide Glued, Decode;
    next := PutMeant(a, st, pt, s);
  }

  /** The body of the loop, at any other character. */
  method OnePlain(a: array<char>, st: nat, en: nat, pt: nat, s: nat, ghost v: string) returns (en': nat, next: nat)
    requires st <= en <= pt <= s < a.Length && v != "" && v[0] == a[s] != '\\'
    modifies a
    ensures st <= en' <= next <= s + 1 && forall j :: s < j < a.Length ==> a[j] == old(a[j])
    ensures Glued(a[st..en'], a[en'..next], Decode(v[1..])) == old(Glued(a[st..en], a[en..pt], Decode(v)))
  {
    ghost var kept, blanks, c := a[st..en], a[en..pt], a[s];
    GluedPlain(kept, blanks, v);
    hide Glued, Decode;
    a[pt] := a[s];
    en', next := en, pt + 1;
    if a[pt] != ' ' && a[pt] != '\t' {
      en' := next;
      assert a[st..next] == kept + blanks + [c] && a[next..next] == "";
    } else {
      assert a[st..en] == kept && a[en..next] == blanks + [c];
    }
  }

  /** The body of the loop. A backslash that ends the line is passed over. */
  method OneMore(a: array<char>, st: nat, en: nat, pt: nat, s: nat, eof: nat, ghost last: nat)
    returns (en': nat, next: nat, s': nat)
    requires st <= en <= pt <= s < last <= eof <= a.Length
    requires (last < eof ==> a[last] == '\n') && forall j :: s <= j < last ==> a[j] != '\n'
    modifies a
    ensures st <= en' <= next <= s' && s < s' <= last && forall j :: s' <= j < a.Length ==> a[j] == old(a[j])
    ensures Glued(a[st..en'], a[en'..next], Decode(a[s'..last])) ==
            old(Glued(a[st..en], a[en..pt], Decode(a[s..last])))
  {
    hide Glued, Decode;
    ghost var v := a[s..last];
    if a[s] == '\\' {
      if s + 1 >= eof || a[s+1] == '\n' {
        assert v == ['\\'] && a[last..last] == "";
        LoneIsDropped(a[st..en], a[en..pt]);
        NothingIsDropped(a[st..en], a[en..pt]);
        en', next, s' := en, pt, s + 1;
      } else {
        next := OneEscape(a, st, en, pt, s + 1, v);
        en', s' := next, s + 2;
        assert v[2..] == a[s'..last] && a[next..next] == "";
      }
    } else {
      en', next := OnePlain(a, st, en, pt, s, v);
      s' := s + 1;
      assert v[1..] == a[s'..last];
    }
  }

  /** The daemon's readConfig, behind the '=': decodes in place, and drops the blanks at the end. */
  method DecodeLine(a: array<char>, start: nat, eof: nat) returns (st: nat, en: nat)
    requires start <= eof <= a.Length
    modifies a
    ensures start <= st <= en <= eof && a[st..en] == Value(FirstLine(old(a[start..eof])))
  {
    hide Glued, Decode, Skip, FirstLine;
    ghost var last;
    st, last := SkipSpaces(a, start, eof);
    ghost var v := a[st..last];
    var s, pt := st, st;
    en := st;
    assert a[st..st] == "";
    AllIsKept(v);
    while s < eof && a[s] != '\n'
      invariant st <= en <= pt <= s <= last
      invariant (last < eof ==> a[last] == '\n') && forall j :: s <= j < last ==> a[j] != '\n'
      invariant Glued(a[st..en], a[en..pt], Decode(a[s..last])) == Decode(v)
    {
      en, pt, s := OneMore(a, st, en, pt, s, eof, last);
    }
    assert a[s..last] == "";
    NothingIsDropped(a[st..en], a[en..pt]);
  }

  lemma AllIsKept(v: string)
    ensures Glued("", "", Decode(v)) == Decode(v)
  {
    assert "" + "" + Decode(v) == Decode(v);
  }

  lemma LoneIsDropped(kept: string, blanks: string)
    ensures Glued(kept, blanks, Decode(['\\'])) == kept
  {}

  lemma NothingIsDropped(kept: string, blanks: string)
    ensures Glued(kept, blanks, Decode("")) == kept
  {}
}
