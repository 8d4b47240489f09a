/**
 * iniMerge reads its text line by line: what a part of whole lines gives does not
 * depend on what comes after it, and comments and empty lines give nothing.
 */
module IniParts {
  import opened Wrappers
  import opened CStrings
  import opened IniLines
  import opened IniLens
  import opened IniMerge

  /** Assignments read, the section read last, and whether the reading came to the end of the text. */
  datatype Part = Part(writes: seq<Assign>, section: Option<string>, whole: bool)

  function ReadPart(n: string, p: nat, section: Option<string>): Part
    requires p <= |n|
    decreases |n| - p
  {
    match Next(n, p)
    case Stop => Part([], section, BlankEnd(n, p) == |n|)
    case Skip(q) => ReadPart(n, q, section)
    case Header(name, q) => ReadPart(n, q, Some(name))
    case Item(r) =>
      var rest := ReadPart(n, r.end, section);
      rest.(writes := (if section.Some? then [Assign(section.value, r.key, r.value)] else []) + rest.writes)
  }

  predicate WholeLines(a: string) {
    a == "" || a[|a|-1] == '\n'
  }

  // ----- What comes after does not matter -----

  lemma {:induction false} BlankEndStays(a: string, x: string, p: nat)
    requires p < |a| && a[|a|-1] == '\n'
    ensures BlankEnd(a + x, p) == BlankEnd(a, p) < |a|
    decreases |a| - p
  {
    if Blank(a[p]) { BlankEndStays(a, x, p + 1); }
  }

  lemma {:induction false} FirstOfStays(a: string, x: string, p: nat, c: char)
    requires p < |a| && a[|a|-1] == '\n'
    ensures FirstOf(a + x, p, c) == FirstOf(a, p, c) < |a|
    decreases |a| - p
  {
    if a[p] != c && a[p] != '\n' { FirstOfStays(a, x, p + 1, c); }
  }

  lemma {:induction false} FirstNewlineStays(a: string, x: string, p: nat)
    requires p < |a| && a[|a|-1] == '\n'
    ensures FirstNewline(a + x, p) == FirstNewline(a, p) < |a|
    decreases |a| - p
  {
    if a[p] != '\n' { FirstNewlineStays(a, x, p + 1); }
  }

  lemma SliceStays(a: string, x: string, i: nat, j: nat)
    requires i <= j <= |a|
    ensures (a + x)[i..j] == a[i..j] && |a + x| >= |a|
  {}

  lemma CharStays(a: string, x: string, i: nat)
    requires i < |a|
    ensures i < |a + x| && (a + x)[i] == a[i]
  {}

  lemma EntryStays(a: string, x: string, p: nat)
    requires p < |a| && a[|a|-1] == '\n'
    ensures EntryAt(a + x, p) == EntryAt(a, p)
  {
    hide FirstOf, BlankEnd, FirstNewline, TrimEnd;
    var n := a + x;
    FirstOfStays(a, x, p, '=');
    var e := FirstOf(a, p, '=');
    CharStays(a, x, e);
    if a[e] == '=' {
      BlankEndStays(a, x, e + 1);
      var v := BlankEnd(a, e + 1);
      FirstNewlineStays(a, x, v);
      SliceStays(a, x, p, e);
      SliceStays(a, x, v, FirstNewline(a, v));
    }
  }

  lemma NextStays(a: string, x: string, p: nat)
    requires p < |a| && a[|a|-1] == '\n'
    ensures Next(a + x, p) == Next(a, p)
    ensures BlankEnd(a, p) < |a|
  {
    hide FirstOf, BlankEnd, FirstNewline, EntryAt;
    var n := a + x;
    BlankEndStays(a, x, p);
    var q := BlankEnd(a, p);
    CharStays(a, x, q);
    if a[q] == '#' {
      FirstNewlineStays(a, x, q + 1);
    } else if a[q] == '[' {
      FirstOfStays(a, x, q + 1, ']');
      var e := FirstOf(a, q + 1, ']');
      CharStays(a, x, e);
      SliceStays(a, x, q + 1, e);
    } else if a[q] != '\n' {
      EntryStays(a, x, q);
    }
  }

  // ----- Where a text begins does not matter -----

  lemma {:induction false} BlankEndShifts(a: string, x: string, p: nat)
    requires p <= |x|
    ensures BlankEnd(a + x, |a| + p) == |a| + BlankEnd(x, p)
    decreases |x| - p
  {
    if p < |x| && Blank(x[p]) { BlankEndShifts(a, x, p + 1); }
  }

  lemma {:induction false} FirstOfShifts(a: string, x: string, p: nat, c: char)
    requires p <= |x|
    ensures FirstOf(a + x, |a| + p, c) == |a| + FirstOf(x, p, c)
    decreases |x| - p
  {
    if p < |x| && x[p] != c && x[p] != '\n' { FirstOfShifts(a, x, p + 1, c); }
  }

  lemma {:induction false} FirstNewlineShifts(a: string, x: string, p: nat)
    requires p <= |x|
    ensures FirstNewline(a + x, |a| + p) == |a| + FirstNewline(x, p)
    decreases |x| - p
  {
    if p < |x| && x[p] != '\n' { FirstNewlineShifts(a, x, p + 1); }
  }

  lemma SliceShifts(a: string, x: string, i: nat, j: nat)
    requires i <= j <= |x|
    ensures (a + x)[|a| + i..|a| + j] == x[i..j]
  {}

  lemma CharShifts(a: string, x: string, i: nat)
    requires i < |x|
    ensures |a| + i < |a + x| && (a + x)[|a| + i] == x[i]
  {}

  /** A token that is met further on. */
  function Moved(t: Token, k: nat): Token {
    match t
    case Stop => Stop
    case Skip(q) => Skip(q + k)
    case Header(name, q) => Header(name, q + k)
    case Item(r) => Item(r.(end := r.end + k))
  }

  /** An entry from p on has its '=' at e and its value from v to f. */
  predicate Lies(n: string, p: nat, e: nat, v: nat, f: nat) {
    && p <= e < v <= f <= |n| && n[e] == '='
    && FirstOf(n, p, '=') == e && BlankEnd(n, e + 1) == v && FirstNewline(n, v) == f
  }

  lemma EntryWhereItLies(n: string, p: nat, e: nat, v: nat, f: nat)
    requires Lies(n, p, e, v, f)
    ensures EntryAt(n, p) == Some(Entry(TrimEnd(n[p..e]), TrimEnd(n[v..f]), f))
  {}

  lemma EntryLies(n: string, p: nat) returns (e: nat, v: nat, f: nat)
    requires p <= |n| && EntryAt(n, p).Some?
    ensures Lies(n, p, e, v, f)
  {
    e := FirstOf(n, p, '=');
    v := BlankEnd(n, e + 1);
    f := FirstNewline(n, v);
  }

  lemma LiesFurtherOn(a: string, x: string, p: nat, e: nat, v: nat, f: nat)
    requires Lies(x, p, e, v, f)
    ensures Lies(a + x, |a| + p, |a| + e, |a| + v, |a| + f)
  {
    FirstOfShifts(a, x, p, '=');
    CharShifts(a, x, e);
    BlankEndShifts(a, x, e + 1);
    FirstNewlineShifts(a, x, v);
  }

  lemma NoEntryShifts(a: string, x: string, p: nat)
    requires p <= |x| && EntryAt(x, p).None?
    ensures EntryAt(a + x, |a| + p).None?
  {
    FirstOfShifts(a, x, p, '=');
    var e := FirstOf(x, p, '=');
    if e < |x| { CharShifts(a, x, e); }
  }

  lemma EntryShifts(a: string, x: string, p: nat)
    requires p <= |x|
    ensures var r := EntryAt(x, p);
      EntryAt(a + x, |a| + p) == if r.None? then None else Some(r.value.(end := |a| + r.value.end))
  {
    hide EntryAt, Lies;
    if EntryAt(x, p).None? {
      NoEntryShifts(a, x, p);
    } else {
      var e, v, f := EntryLies(x, p);
      EntryWhereItLies(x, p, e, v, f);
      LiesFurtherOn(a, x, p, e, v, f);
      EntryWhereItLies(a + x, |a| + p, |a| + e, |a| + v, |a| + f);
      LiesInside(x, p, e, v, f);
      SliceShifts(a, x, p, e);
      SliceShifts(a, x, v, f);
    }
  }

  lemma LiesInside(n: string, p: nat, e: nat, v: nat, f: nat)
    requires Lies(n, p, e, v, f)
    ensures p <= e < v <= f <= |n|
  {}

  lemma NextShifts(a: string, x: string, p: nat)
    requires p <= |x|
    ensures Next(a + x, |a| + p) == Moved(Next(x, p), |a|)
  {
    hide BlankEnd, FirstOf, FirstNewline, EntryAt;
    BlankEndShifts(a, x, p);
    var q := BlankEnd(x, p);
    if q < |x| {
      CharShifts(a, x, q);
      if x[q] == '#' {
        FirstNewlineShifts(a, x, q + 1);
      } else if x[q] == '[' {
        FirstOfShifts(a, x, q + 1, ']');
        var e := FirstOf(x, q + 1, ']');
        if e < |x| { CharShifts(a, x, e); }
        SliceShifts(a, x, q + 1, e);
      } else if x[q] != '\n' {
        EntryShifts(a, x, q);
      }
    }
  }

  lemma {:induction false} AssignsShift(a: string, x: string, p: nat, section: Option<string>)
    requires p <= |x|
    ensures Assigns(a + x, |a| + p, section) == Assigns(x, p, section)
    decreases |x| - p
  {
    hide Next;
    var n := a + x;
    NextShifts(a, x, p);
    match Next(x, p) {
      case Stop =>
      case Skip(q) => AssignsShift(a, x, q, section);
      case Header(name, q) => AssignsShift(a, x, q, Some(name));
      case Item(r) => AssignsShift(a, x, r.end, section);
    }
  }

  // ----- Part by part -----

  function Tail(part: Part, x: string): seq<Assign> {
    if part.whole then Assigns(x, 0, part.section) else []
  }

  /** What an entry gives in the section read last. */
  function Given(section: Option<string>, r: Entry): seq<Assign> {
    if section.Some? then [Assign(section.value, r.key, r.value)] else []
  }

  lemma ItemThenRest(a: string, x: string, p: nat, section: Option<string>, r: Entry)
    requires p < |a| && r.end <= |a| && Next(a, p) == Item(r) && Next(a + x, p) == Item(r)
    requires var part := ReadPart(a, r.end, section); Assigns(a + x, r.end, section) == part.writes + Tail(part, x)
    ensures var part := ReadPart(a, p, section); Assigns(a + x, p, section) == part.writes + Tail(part, x)
  {
    hide Next, Tail;
    var part := ReadPart(a, r.end, section);
    assert ReadPart(a, p, section) == part.(writes := Given(section, r) + part.writes);
    assert Assigns(a + x, p, section) == Given(section, r) + Assigns(a + x, r.end, section);
    TailSame(part, Given(section, r) + part.writes, x);
    assert Given(section, r) + (part.writes + Tail(part, x)) == (Given(section, r) + part.writes) + Tail(part, x);
  }

  lemma TailSame(part: Part, writes: seq<Assign>, x: string)
    ensures Tail(part.(writes := writes), x) == Tail(part, x)
  {}

  lemma {:induction false} PartThenRest(a: string, x: string, p: nat, section: Option<string>)
    requires p <= |a| && WholeLines(a)
    ensures var part := ReadPart(a, p, section); Assigns(a + x, p, section) == part.writes + Tail(part, x)
    decreases |a| - p
  {
    hide Next, BlankEnd;
    if p == |a| {
      AssignsShift(a, x, 0, section);
      AtEnd(a, section);
    } else {
      NextStays(a, x, p);
      match Next(a, p) {
        case Stop =>
        case Skip(q) => PartThenRest(a, x, q, section);
        case Header(name, q) => PartThenRest(a, x, q, Some(name));
        case Item(r) =>
          PartThenRest(a, x, r.end, section);
          ItemThenRest(a, x, p, section, r);
      }
    }
  }

  lemma AtEnd(a: string, section: Option<string>)
    ensures ReadPart(a, |a|, section) == Part([], section, true)
  {}

  /** Blanks, a number sign and whatever follows on the line; or blanks only. */
  predicate SaysNothing(line: string) {
    && NoNewline(line)
    && var q := LeadingBlanks(line); q == |line| || line[q] == '#'
  }

  lemma NothingRead(line: string, section: Option<string>)
    requires SaysNothing(line)
    ensures ReadPart(line + "\n", 0, section) == Part([], section, true)
  {
    var a, q := line + "\n", LeadingBlanks(line);
    BlankEndIs(a, 0, q);
    if q < |line| {
      FirstNewlineIs(a, q + 1, |line|);
    }
    assert Next(a, 0) == Skip(|a|);
    AtEnd(a, section);
  }

  lemma {:induction false} FirstNewlineIs(s: string, i: nat, k: nat)
    requires i <= k < |s| && s[k] == '\n' && forall j :: i <= j < k ==> s[j] != '\n'
    ensures FirstNewline(s, i) == k
    decreases k - i
  {
    if i < k { FirstNewlineIs(s, i + 1, k); }
  }

  /** A comment or an empty line between two parts of a text changes nothing. */
  lemma CommentsAreSkipped(a: string, line: string, b: string)
    requires WholeLines(a) && SaysNothing(line)
    ensures Assigns(a + (line + "\n" + b), 0, None) == Assigns(a + b, 0, None)
  {
    var part := ReadPart(a, 0, None);
    PartThenRest(a, line + "\n" + b, 0, None);
    PartThenRest(a, b, 0, None);
    PartThenRest(line + "\n", b, 0, part.section);
    NothingRead(line, part.section);
    assert [] + Assigns(b, 0, part.section) == Assigns(b, 0, part.section);
  }

  // ----- Lines of each kind -----

  predicate AllBlank(s: string) {
    forall i :: 0 <= i < |s| ==> Blank(s[i])
  }

  lemma {:induction false} FirstOfIs(n: string, p: nat, c: char, e: nat)
    requires p <= e < |n| && (n[e] == c || n[e] == '\n') && forall i :: p <= i < e ==> n[i] != c && n[i] != '\n'
    ensures FirstOf(n, p, c) == e
    decreases e - p
  {
    if p < e { FirstOfIs(n, p + 1, c, e); }
  }

  lemma {:induction false} BlankEndOver(b: string, t: string)
    requires AllBlank(b)
    ensures BlankEnd(b + t, 0) == |b| + BlankEnd(t, 0)
  {
    BlankEndShifts(b, t, 0);
    BlankEndFrom(b, t, 0);
  }

  lemma {:induction false} BlankEndFrom(b: string, t: string, i: nat)
    requires AllBlank(b) && i <= |b|
    ensures BlankEnd(b + t, i) == BlankEnd(b + t, |b|)
    decreases |b| - i
  {
    if i < |b| { CharStays(b, t, i); BlankEndFrom(b, t, i + 1); }
  }

  /** Blanks in front of anything are passed over. */
  lemma BlanksAreSkipped(b: string, t: string, section: Option<string>)
    requires AllBlank(b)
    ensures Assigns(b + t, 0, section) == Assigns(t, 0, section)
  {
    BlankEndOver(b, t);
    NextShifts(b, t, 0);
    NextFrom(b + t, 0, |b|);
    AssignsShift(b, t, 0, section);
  }

  lemma NextFrom(n: string, p: nat, q: nat)
    requires p <= |n| && q <= |n| && BlankEnd(n, p) == BlankEnd(n, q)
    ensures Next(n, p) == Next(n, q)
  {}

  /** A section name in brackets sets the section; the reading goes on behind it, in the same line. */
  lemma HeaderRead(s: string, rest: string, section: Option<string>)
    requires ValidSection(s)
    ensures Assigns(HeaderLine(s) + rest, 0, section) == Assigns(rest, 0, Some(s))
  {
    var h := HeaderLine(s);
    var n, e := h + rest, 1 + |s|;
    HeaderParts(s);
    forall i | 0 <= i <= e ensures n[i] == h[i] { CharStays(h, rest, i); }
    SliceStays(h, rest, 1, e);
    BlankEndIs(n, 0, 0);
    FirstOfIs(n, 1, ']', e);
    AssignsShift(h, rest, 0, Some(s));
  }

  lemma HeaderParts(s: string)
    ensures var h := HeaderLine(s);
      && |h| == |s| + 2 && h[0] == '[' && h[|s|+1] == ']' && h[1..|s|+1] == s
      && forall i :: 1 <= i <= |s| ==> h[i] == s[i-1]
  {}

  /** A text with which a line can begin as a key. */
  predicate KeyText(y: string) {
    '=' !in y && '\n' !in y && (y == "" || (!Blank(y[0]) && y[0] != '[' && y[0] != '#'))
  }

  /** A key, an equals sign and a value: one assignment, of both without the blanks around them,
      in the section read last. */
  lemma EntryRead(y: string, x: string, rest: string, section: Option<string>)
    requires KeyText(y) && NoNewline(x)
    ensures Assigns((y + "=") + (x + ("\n" + rest)), 0, section) ==
      (if section.Some? then [Assign(section.value, TrimEnd(y), Trim(x))] else []) + Assigns(rest, 0, section)
  {
    var a, z := y + "=", x + ("\n" + rest);
    EntryToken(y, x, rest);
    AssignsShift(a, z, |x|, section);
    NewlineRead(x, rest, section);
  }

  lemma NewlineRead(x: string, rest: string, section: Option<string>)
    ensures Assigns(x + ("\n" + rest), |x|, section) == Assigns(rest, 0, section)
  {
    var t := "\n" + rest;
    AssignsShift(x, t, 0, section);
    BlankEndIs(t, 0, 0);
    AssignsShift("\n", rest, 0, section);
  }

  lemma ValueHere(x: string, rest: string)
    requires NoNewline(x)
    ensures var z := x + ("\n" + rest);
      && BlankEnd(z, 0) == LeadingBlanks(x) && FirstNewline(z, LeadingBlanks(x)) == |x|
      && z[LeadingBlanks(x)..|x|] == x[LeadingBlanks(x)..]
  {
    var z, lb := x + ("\n" + rest), LeadingBlanks(x);
    forall i | 0 <= i < |x| ensures z[i] == x[i] { CharStays(x, "\n" + rest, i); }
    assert z[|x|] == '\n';
    BlankEndIs(z, 0, lb);
    FirstNewlineIs(z, lb, |x|);
    SliceStays(x, "\n" + rest, lb, |x|);
    assert x[lb..|x|] == x[lb..] && z[lb..|x|] == x[lb..];
  }

  predicate BeginsEntry(n: string) {
    n != "" && BlankEnd(n, 0) == 0 && n[0] != '\n' && n[0] != '[' && n[0] != '#'
  }

  lemma NextEntry(n: string, e: nat, v: nat, f: nat, y: string, x: string)
    requires BeginsEntry(n) && Lies(n, 0, e, v, f) && n[0..e] == y && n[v..f] == x
    ensures Next(n, 0) == Item(Entry(TrimEnd(y), TrimEnd(x), f))
  {
    EntryWhereItLies(n, 0, e, v, f);
  }

  lemma ValueThere(a: string, x: string, rest: string)
    requires NoNewline(x)
    ensures var n := a + (x + ("\n" + rest)); var v, f := |a| + LeadingBlanks(x), |a| + |x|;
      && v <= f <= |n| && BlankEnd(n, |a|) == v && FirstNewline(n, v) == f && n[v..f] == x[LeadingBlanks(x)..]
  {
    var z, lb := x + ("\n" + rest), LeadingBlanks(x);
    ValueHere(x, rest);
    BlankEndShifts(a, z, 0);
    FirstNewlineShifts(a, z, lb);
    SliceShifts(a, z, lb, |x|);
  }

  function EntryText(y: string, x: string, rest: string): string {
    (y + "=") + (x + ("\n" + rest))
  }

  lemma EntryPlaces(y: string, x: string, rest: string)
    requires KeyText(y) && NoNewline(x)
    ensures var n := EntryText(y, x, rest); var e, lb := |y|, LeadingBlanks(x);
      && BeginsEntry(n) && Lies(n, 0, e, e + 1 + lb, e + 1 + |x|)
      && n[0..e] == y && n[e+1+lb..e+1+|x|] == x[lb..]
  {
    KeyHere(y, x + ("\n" + rest));
    ValueThere(y + "=", x, rest);
  }

  lemma EntryToken(y: string, x: string, rest: string)
    requires KeyText(y) && NoNewline(x)
    ensures Next(EntryText(y, x, rest), 0) == Item(Entry(TrimEnd(y), Trim(x), |y| + 1 + |x|))
  {
    hide Next, KeyText, EntryText, BeginsEntry, Lies;
    EntryPlaces(y, x, rest);
    var lb := LeadingBlanks(x);
    NextEntry(EntryText(y, x, rest), |y|, |y| + 1 + lb, |y| + 1 + |x|, y, x[lb..]);
  }

  lemma KeyHere(y: string, z: string)
    requires KeyText(y)
    ensures var n := (y + "=") + z;
      && BlankEnd(n, 0) == 0 && |n| > |y| && n[|y|] == '=' && FirstOf(n, 0, '=') == |y| && n[0..|y|] == y
      && n[0] != '\n' && n[0] != '[' && n[0] != '#'
  {
    var a := y + "=";
    var n := a + z;
    forall i | 0 <= i < |a| ensures n[i] == a[i] { CharStays(a, z, i); }
    assert forall i :: 0 <= i < |y| ==> a[i] == y[i];
    assert a[|y|] == '=';
    BlankEndIs(n, 0, 0);
    FirstOfIs(n, 0, '=', |y|);
    SliceStays(a, z, 0, |y|);
    assert a[0..|y|] == y;
  }

  /** The line begins with a bracket that it does not close, or with a key that has no equals sign. */
  predicate Malformed(line: string) {
    && NoNewline(line)
    && var q := LeadingBlanks(line);
       && q < |line|
       && if line[q] == '[' then ']' !in line[q..] else line[q] != '#' && '=' !in line[q..]
  }

  /** Such a line ends the reading: nothing behind it counts. */
  lemma MalformedStops(line: string, rest: string, section: Option<string>)
    requires Malformed(line)
    ensures Assigns(line + ("\n" + rest), 0, section) == []
  {
    var n, q := line + ("\n" + rest), LeadingBlanks(line);
    assert forall i :: 0 <= i < |line| ==> n[i] == line[i];
    BlankEndIs(n, 0, q);
    assert forall i :: q <= i < |line| ==> line[i] == line[q..][i-q];
    if line[q] == '[' {
      FirstOfIs(n, q + 1, ']', |line|);
    } else {
      FirstOfIs(n, q, '=', |line|);
    }
  }
}
