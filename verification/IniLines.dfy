/**
 * What an ini file means to inifile.c: a sequence of lines, some of which open a
 * section and some of which give a key a value.
 *
 * Lines are kept without their newline. The predicates follow the reader
 * character by character, so they are defined for every line and every name.
 */
module IniLines {
  import opened Wrappers

  predicate Blank(c: char) {
    c == ' ' || c == '\t'
  }

  /** The first position at or after i that holds no blank, or the end. */
  function BlankEnd(s: string, i: nat): (e: nat)
    requires i <= |s|
    ensures i <= e <= |s| && (e < |s| ==> !Blank(s[e]))
    ensures forall j :: i <= j < e ==> Blank(s[j])
    decreases |s| - i
  {
    if i == |s| || !Blank(s[i]) then i else BlankEnd(s, i + 1)
  }

  function LeadingBlanks(s: string): nat {
    BlankEnd(s, 0)
  }

  function TrimEnd(s: string): (r: string)
    ensures r <= s && (r != "" ==> !Blank(r[|r|-1]))
    ensures forall i :: |r| <= i < |s| ==> Blank(s[i])
  {
    if s == "" || !Blank(s[|s|-1]) then s else TrimEnd(s[..|s|-1])
  }

  function Trim(s: string): string {
    TrimEnd(s[LeadingBlanks(s)..])
  }

  // ----- Lines -----

  /** The string stands in the line at column c. */
  predicate Reads(line: string, c: nat, s: string) {
    c + |s| <= |line| && forall i :: 0 <= i < |s| ==> line[c+i] == s[i]
  }

  predicate BlankLine(line: string) {
    LeadingBlanks(line) == |line|
  }

  predicate AnyHeader(line: string) {
    !BlankLine(line) && line[LeadingBlanks(line)] == '['
  }

  /** Whatever follows the closing bracket is ignored. */
  predicate IsHeader(line: string, section: string) {
    AnyHeader(line) &&
    var c := LeadingBlanks(line) + 1;
    Reads(line, c, section) && c + |section| < |line| && line[c + |section|] == ']'
  }

  /** The column of the '=' if the line is to be an entry for this key. */
  function EqualsAt(line: string, key: string): nat
    requires LeadingBlanks(line) + |key| <= |line|
  {
    BlankEnd(line, LeadingBlanks(line) + |key|)
  }

  predicate IsEntry(line: string, key: string) {
    && !BlankLine(line) && !AnyHeader(line)
    && Reads(line, LeadingBlanks(line), key)
    && EqualsAt(line, key) < |line| && line[EqualsAt(line, key)] == '='
  }

  /** The column where the value starts. */
  function ValueAt(line: string, key: string): (e: nat)
    requires IsEntry(line, key)
    ensures e <= |line|
  {
    BlankEnd(line, EqualsAt(line, key) + 1)
  }

  function ValueOf(line: string, key: string): string
    requires IsEntry(line, key)
  {
    TrimEnd(line[ValueAt(line, key)..])
  }

  // ----- Files -----

  /** Whether line i is read as part of the section: the nearest header above names it. */
  predicate InSect(ls: seq<string>, i: nat, section: string)
    requires i <= |ls|
  {
    if i == 0 then false
    else if AnyHeader(ls[i-1]) then IsHeader(ls[i-1], section)
    else InSect(ls, i - 1, section)
  }

  predicate Visible(ls: seq<string>, i: nat, section: string, key: string)
    requires i < |ls|
  {
    InSect(ls, i, section) && IsEntry(ls[i], key)
  }

  /** The first line at or after i that gives the key a value in the section. */
  function FindEntry(ls: seq<string>, i: nat, section: string, key: string): (r: Option<nat>)
    requires i <= |ls|
    ensures r.Some? ==> i <= r.value < |ls| && Visible(ls, r.value, section, key)
    ensures r.Some? ==> forall j :: i <= j < r.value ==> !Visible(ls, j, section, key)
    ensures r.None? ==> forall j :: i <= j < |ls| ==> !Visible(ls, j, section, key)
    decreases |ls| - i
  {
    if i == |ls| then None
    else if Visible(ls, i, section, key) then Some(i)
    else FindEntry(ls, i + 1, section, key)
  }

  /** The last non-blank line above i that is in the section, its header included. */
  function LastOfSection(ls: seq<string>, i: nat, section: string): (r: Option<nat>)
    requires i <= |ls|
    ensures r.Some? ==> r.value < i && !BlankLine(ls[r.value]) && InSect(ls, r.value + 1, section)
    ensures r.Some? ==> forall j :: r.value < j < i ==> BlankLine(ls[j]) || !InSect(ls, j + 1, section)
    ensures r.None? ==> forall j :: 0 <= j < i ==> BlankLine(ls[j]) || !InSect(ls, j + 1, section)
  {
    if i == 0 then None
    else if !BlankLine(ls[i-1]) && InSect(ls, i, section) then Some(i - 1)
    else LastOfSection(ls, i - 1, section)
  }

  /** The last non-blank line above i that is not in the section. */
  function LastOutside(ls: seq<string>, i: nat, section: string): (r: Option<nat>)
    requires i <= |ls|
    ensures r.Some? ==> r.value < i && !BlankLine(ls[r.value]) && !InSect(ls, r.value + 1, section)
    ensures r.Some? ==> forall j :: r.value < j < i ==> BlankLine(ls[j]) || InSect(ls, j + 1, section)
    ensures r.None? ==> forall j :: 0 <= j < i ==> BlankLine(ls[j]) || InSect(ls, j + 1, section)
  {
    if i == 0 then None
    else if !BlankLine(ls[i-1]) && !InSect(ls, i, section) then Some(i - 1)
    else LastOutside(ls, i - 1, section)
  }

  function Get(ls: seq<string>, section: string, key: string): Option<string> {
    var r := FindEntry(ls, 0, section, key);
    if r.Some? then Some(ValueOf(ls[r.value], key)) else None
  }

  function EntryLine(key: string, value: string): string {
    key + "=" + value
  }

  function HeaderLine(section: string): string {
    "[" + section + "]"
  }

  function Insert(ls: seq<string>, n: nat, mid: seq<string>): seq<string>
    requires n <= |ls|
  {
    ls[..n] + mid + ls[n..]
  }

  /** Replace the value, or add an entry to the section, or add the section. */
  function Put(ls: seq<string>, section: string, key: string, value: string): seq<string> {
    var r := FindEntry(ls, 0, section, key);
    if r.Some? then
      ls[r.value := ls[r.value][..ValueAt(ls[r.value], key)] + value]
    else
      var j := LastOfSection(ls, |ls|, section);
      if j.Some? then
        Insert(ls, j.value + 1, [EntryLine(key, value)])
      else
        var j := LastOutside(ls, |ls|, section);
        if j.Some? then
          Insert(ls, j.value + 1, ["", HeaderLine(section), EntryLine(key, value)])
        else
          Insert(ls, 0, [HeaderLine(section), EntryLine(key, value)])
  }

  // ----- Text -----

  predicate NoNewline(s: string) {
    '\n' !in s
  }

  ghost predicate CleanLines(ls: seq<string>) {
    forall i :: 0 <= i < |ls| ==> NoNewline(ls[i])
  }

  function Join(ls: seq<string>): string {
    if ls == [] then "" else ls[0] + "\n" + Join(ls[1..])
  }

  /** iniEntry relies on the last line being terminated. */
  predicate Terminated(text: string) {
    text == "" || text[|text|-1] == '\n'
  }

  function FirstNewline(s: string, i: nat): (k: nat)
    requires i <= |s|
    ensures i <= k <= |s| && (k < |s| ==> s[k] == '\n')
    ensures forall j :: i <= j < k ==> s[j] != '\n'
    decreases |s| - i
  {
    if i == |s| || s[i] == '\n' then i else FirstNewline(s, i + 1)
  }

  function Lines(text: string): (ls: seq<string>)
    ensures CleanLines(ls)
  {
    if text == "" then []
    else
      var k := FirstNewline(text, 0);
      [text[..k]] + (if k < |text| then Lines(text[k+1..]) else [])
  }

  /** Where line i starts in the text. */
  function Off(ls: seq<string>, i: nat): nat
    requires i <= |ls|
  {
    if i == 0 then 0 else Off(ls, i - 1) + |ls[i-1]| + 1
  }

  lemma {:induction false} JoinLines(text: string)
    requires Terminated(text)
    ensures Join(Lines(text)) == text
  {
    if text != "" {
      var k := FirstNewline(text, 0);
      var head, rest := text[..k], text[k+1..];
      assert k < |text|;
      assert Terminated(rest) by {
        if rest != "" { assert rest[|rest|-1] == text[|text|-1]; }
      }
      JoinLines(rest);
      JoinCons(head, Lines(rest));
      assert text == head + ("\n" + rest);
    }
  }

  lemma JoinCons(line: string, ls: seq<string>)
    ensures Join([line] + ls) == line + ("\n" + Join(ls))
  {
    assert ([line] + ls)[1..] == ls;
  }

  lemma {:induction false} LinesJoin(ls: seq<string>)
    requires CleanLines(ls)
    ensures Lines(Join(ls)) == ls && Terminated(Join(ls))
  {
    if ls != [] {
      var t, rest := Join(ls), Join(ls[1..]);
      LinesJoin(ls[1..]);
      var k := FirstNewline(t, 0);
      assert t[|ls[0]|] == '\n';
      assert forall j :: 0 <= j < |ls[0]| ==> t[j] == ls[0][j] && ls[0][j] != '\n';
      assert k == |ls[0]|;
      assert t[..k] == ls[0] && t[k+1..] == rest;
    }
  }

  lemma {:induction false} JoinConcat(a: seq<string>, b: seq<string>)
    ensures Join(a + b) == Join(a) + Join(b)
  {
    if a == [] {
      assert a + b == b;
    } else {
      JoinConcat(a[1..], b);
      assert (a + b)[1..] == a[1..] + b;
    }
  }

  lemma {:induction false} OffIsJoin(ls: seq<string>, i: nat)
    requires i <= |ls|
    ensures Off(ls, i) == |Join(ls[..i])|
  {
    if i > 0 {
      OffIsJoin(ls, i - 1);
      JoinConcat(ls[..i-1], [ls[i-1]]);
      assert ls[..i-1] + [ls[i-1]] == ls[..i];
    }
  }

  /** The text splits at the start of line i. */
  lemma SplitAt(ls: seq<string>, i: nat)
    requires i <= |ls|
    ensures Off(ls, i) <= |Join(ls)|
    ensures Join(ls)[..Off(ls, i)] == Join(ls[..i]) && Join(ls)[Off(ls, i)..] == Join(ls[i..])
  {
    OffIsJoin(ls, i);
    JoinConcat(ls[..i], ls[i..]);
    assert ls[..i] + ls[i..] == ls;
  }

  /** Line i, in place in the text. */
  lemma LineInText(ls: seq<string>, i: nat)
    requires i < |ls|
    ensures var t, o := Join(ls), Off(ls, i);
      && o + |ls[i]| < |t| && t[o..o+|ls[i]|] == ls[i] && t[o+|ls[i]|] == '\n'
      && Off(ls, i + 1) == o + |ls[i]| + 1
  {
    SplitAt(ls, i);
    var t, o := Join(ls), Off(ls, i);
    assert ls[i..][0] == ls[i];
    var u := Join(ls[i..]);
    assert u == ls[i] + "\n" + Join(ls[i..][1..]);
    assert forall c :: 0 <= c < |u| ==> t[o + c] == u[c];
  }
}
