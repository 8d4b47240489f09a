/**
 * Files that were built from nothing by writing entries, as the greeter's settings
 * are: merging such a file is the same as asking it first and the old file second.
 */
module IniBuilt {
  import opened Wrappers
  import opened IniLines
  import opened IniLens
  import opened IniMerge

  predicate HashKey(k: string) {
    k != "" && k[0] == '#'
  }

  /** A write that the merging reader can see: it takes keys that start with '#' for comments. */
  predicate GoodWrite(a: Assign) {
    Writable(a) && !HashKey(a.key)
  }

  // ----- Lines that such writes leave behind -----

  predicate TidyEntry(line: string) {
    var e := FirstOf(line, 0, '=');
    e < |line| && line[e] == '=' && ValidKey(line[..e]) && line[0] != '#'
  }

  function TidyKey(line: string): string {
    line[..FirstOf(line, 0, '=')]
  }

  predicate TidyHeader(line: string) {
    |line| >= 2 && line[0] == '[' && line[|line|-1] == ']' && ValidSection(line[1..|line|-1])
  }

  predicate Tidy(line: string) {
    NoNewline(line) && (line == "" || TidyHeader(line) || TidyEntry(line))
  }

  ghost predicate AllTidy(ls: seq<string>) {
    forall i :: 0 <= i < |ls| ==> Tidy(ls[i])
  }

  /** No key of a section has two entries. */
  ghost predicate OnceVisible(ls: seq<string>) {
    forall i, j, s, k :: 0 <= i < j < |ls| && ValidSection(s) && ValidKey(k) ==>
      !(Visible(ls, i, s, k) && Visible(ls, j, s, k))
  }

  lemma FirstEquals(line: string, e: nat)
    requires e < |line| && line[e] == '=' && forall i :: 0 <= i < e ==> line[i] != '=' && line[i] != '\n'
    ensures FirstOf(line, 0, '=') == e
  {
    var f := FirstOf(line, 0, '=');
    assert f < e || e < f || e == f;
  }

  lemma TidyEntryIsEntry(line: string)
    requires TidyEntry(line)
    ensures IsEntry(line, TidyKey(line)) && |TidyKey(line)| < ValueAt(line, TidyKey(line))
    ensures !AnyHeader(line) && line[0] != '[' && !Blank(line[0])
    ensures forall k :: ValidKey(k) && IsEntry(line, k) ==> k == TidyKey(line)
  {
    var k := TidyKey(line);
    assert line == EntryLine(k, line[|k|+1..]);
    NewEntry(k, line[|k|+1..]);
    forall k' | ValidKey(k') && IsEntry(line, k') ensures k' == k { EntryOfOneKey(line, k, k'); }
    if k != "" { assert line[0] == k[0]; }
  }

  lemma TidyHeaderIsHeader(line: string)
    requires TidyHeader(line)
    ensures AnyHeader(line) && forall s :: ValidSection(s) ==> (IsHeader(line, s) <==> s == line[1..|line|-1])
  {
    var name := line[1..|line|-1];
    assert line == HeaderLine(name);
    NewHeader(name);
    forall s | ValidSection(s) && IsHeader(line, s) ensures s == name { HeaderOfOneSection(line, s, name); }
  }

  // ----- Writing keeps files tidy -----

  lemma OverwrittenIsTidy(line: string, k: string, v: string)
    requires TidyEntry(line) && NoNewline(line) && ValidKey(k) && IsEntry(line, k) && NoNewline(v)
    ensures Tidy(line[..ValueAt(line, k)] + v)
  {
    TidyEntryIsEntry(line);
    var e := FirstOf(line, 0, '=');
    var line' := line[..ValueAt(line, k)] + v;
    forall i | 0 <= i <= e ensures line'[i] == line[i] {}
    FirstEquals(line', e);
    assert line'[..e] == line[..e];
  }

  lemma InsertedAreTidy(a: Assign)
    requires GoodWrite(a)
    ensures Tidy("") && Tidy(HeaderLine(a.section)) && Tidy(EntryLine(a.key, a.value))
  {
    var h, x := HeaderLine(a.section), EntryLine(a.key, a.value);
    assert h[1..|h|-1] == a.section;
    forall i | 0 <= i < |a.key| ensures x[i] == a.key[i] && x[i] != '=' && x[i] != '\n' {}
    FirstEquals(x, |a.key|);
    assert x[..|a.key|] == a.key;
  }

  lemma TidyLineWithEntry(line: string, k: string)
    requires Tidy(line) && IsEntry(line, k)
    ensures TidyEntry(line) && NoNewline(line)
  {
    if TidyHeader(line) { TidyHeaderIsHeader(line); }
  }

  lemma PutIsTidy(ls: seq<string>, a: Assign)
    requires AllTidy(ls) && GoodWrite(a)
    ensures AllTidy(Put(ls, a.section, a.key, a.value))
  {
    hide IsEntry, InSect, TidyEntry, TidyHeader, FindEntry;
    InsertedAreTidy(a);
    var r := FindEntry(ls, 0, a.section, a.key);
    if r.Some? {
      var line := ls[r.value];
      assert Tidy(line);
      TidyLineWithEntry(line, a.key);
      OverwrittenIsTidy(line, a.key, a.value);
    }
    PutKeeps(ls, a.section, a.key, a.value, Tidy);
  }

  lemma OverwriteKeepsOnce(ls: seq<string>, i: nat, s: string, k: string, v: string)
    requires OnceVisible(ls) && i < |ls| && Visible(ls, i, s, k) && ValidSection(s) && ValidKey(k)
    ensures OnceVisible(ls[i := ls[i][..ValueAt(ls[i], k)] + v])
  {
    var line' := ls[i][..ValueAt(ls[i], k)] + v;
    var ls' := ls[i := line'];
    OverwrittenLine(ls[i], k, v);
    forall j, s', k' | 0 <= j < |ls| && ValidSection(s') && ValidKey(k')
      ensures Visible(ls', j, s', k') <==> Visible(ls, j, s', k')
    {
      InSectAlike(ls, ls', j, s');
      if j == i {
        if IsEntry(ls'[i], k') { EntryOfOneKey(ls'[i], k, k'); }
        if IsEntry(ls[i], k') { EntryOfOneKey(ls[i], k, k'); }
      }
    }
  }

  /** Where a visible line of the longer file was in the shorter one. */
  function Back(n: nat, m: nat, i: nat): int {
    if i < n then i else i - m
  }

  lemma VisibleBack(ls: seq<string>, n: nat, mid: seq<string>, i: nat, s: string, k: string)
    requires n <= |ls|
    requires (InSect(Insert(ls, n, mid), n + |mid|, s) <==> InSect(ls, n, s)) ||
             forall j :: n <= j < |ls| ==> BlankLine(ls[j])
    requires i < |Insert(ls, n, mid)| && !(n <= i < n + |mid|)
    ensures 0 <= Back(n, |mid|, i) < |ls|
    ensures Visible(Insert(ls, n, mid), i, s, k) <==> Visible(ls, Back(n, |mid|, i), s, k)
  {
    hide InSect;
    var ls', j := Insert(ls, n, mid), Back(n, |mid|, i);
    assert ls'[i] == ls[j];
    if i < n { InSectAlike(ls, ls', i, s); }
    else if !BlankLine(ls[j]) { InSectShifted(ls, n, mid, j, s); }
  }

  /** If nothing was visible before, at most the last of the inserted lines is. */
  lemma OnlyTheLast(ls: seq<string>, n: nat, mid: seq<string>, i: nat, s: string, k: string)
    requires n <= |ls| && mid != []
    requires (InSect(Insert(ls, n, mid), n + |mid|, s) <==> InSect(ls, n, s)) ||
             forall j :: n <= j < |ls| ==> BlankLine(ls[j])
    requires forall j :: 0 <= j < |ls| ==> !Visible(ls, j, s, k)
    requires var ls' := Insert(ls, n, mid);
      forall j :: n <= j < n + |mid| - 1 ==> BlankLine(ls'[j]) || AnyHeader(ls'[j])
    requires i < |Insert(ls, n, mid)| && Visible(Insert(ls, n, mid), i, s, k)
    ensures i == n + |mid| - 1
  {
    if !(n <= i < n + |mid|) {
      hide Visible, InSect, Insert;
      VisibleBack(ls, n, mid, i, s, k);
    }
  }

  /** The inserted entry is the only one for its key. */
  lemma InsertVisibleSelf(ls: seq<string>, a: Assign, i: nat)
    requires FindEntry(ls, 0, a.section, a.key).None? && GoodWrite(a)
    requires i < |Put(ls, a.section, a.key, a.value)|
    requires Visible(Put(ls, a.section, a.key, a.value), i, a.section, a.key)
    ensures var (n, mid) := Slot(ls, a.section, a.key, a.value); i == n + |mid| - 1
  {
    var (n, mid) := Slot(ls, a.section, a.key, a.value);
    SlotPlace(ls, a.section, a.key, a.value);
    SlotShape(ls, a.section, a.key, a.value);
    forall j | 0 <= j < |ls| ensures !Visible(ls, j, a.section, a.key) {}
    hide InSect, FindEntry, Slot, Insert, Put, Visible, BlankLine, AnyHeader;
    OnlyTheLast(ls, n, mid, i, a.section, a.key);
  }

  /** Every other visible line was visible before. */
  lemma InsertVisibleOther(ls: seq<string>, a: Assign, i: nat, s: string, k: string)
    requires FindEntry(ls, 0, a.section, a.key).None? && GoodWrite(a) && ValidSection(s) && ValidKey(k)
    requires i < |Put(ls, a.section, a.key, a.value)| && Visible(Put(ls, a.section, a.key, a.value), i, s, k)
    requires (s, k) != (a.section, a.key)
    ensures var (n, mid) := Slot(ls, a.section, a.key, a.value);
      !(n <= i < n + |mid|) && Visible(ls, Back(n, |mid|, i), s, k)
  {
    hide InSect, IsEntry, FindEntry, Slot, Insert, Put, Visible, BlankLine, ValidKey, ValidSection;
    var (n, mid) := Slot(ls, a.section, a.key, a.value);
    SlotUnseen(ls, a.section, a.key, a.value, s, k);
    SlotPasses(ls, a, s);
    VisibleBack(ls, n, mid, i, s, k);
  }

  lemma SlotPasses(ls: seq<string>, a: Assign, s: string)
    requires FindEntry(ls, 0, a.section, a.key).None? && GoodWrite(a)
    ensures var (n, mid) := Slot(ls, a.section, a.key, a.value);
      (InSect(Insert(ls, n, mid), n + |mid|, s) <==> InSect(ls, n, s)) || forall i :: n <= i < |ls| ==> BlankLine(ls[i])
  {
    var (n, mid) := Slot(ls, a.section, a.key, a.value);
    var ls' := Insert(ls, n, mid);
    SlotPlace(ls, a.section, a.key, a.value);
    SlotShape(ls, a.section, a.key, a.value);
    if |mid| == 1 {
      InSectAlike(ls, ls', n, s);
      NewEntry(a.key, a.value);
      assert ls'[n] == EntryLine(a.key, a.value);
    }
  }

  lemma PutKeepsOnce(ls: seq<string>, a: Assign)
    requires OnceVisible(ls) && GoodWrite(a)
    ensures OnceVisible(Put(ls, a.section, a.key, a.value))
  {
    var ls' := Put(ls, a.section, a.key, a.value);
    var r := FindEntry(ls, 0, a.section, a.key);
    if r.Some? {
      OverwriteKeepsOnce(ls, r.value, a.section, a.key, a.value);
    } else {
      var (n, mid) := Slot(ls, a.section, a.key, a.value);
      forall i, j, s, k | 0 <= i < j < |ls'| && ValidSection(s) && ValidKey(k)
        ensures !(Visible(ls', i, s, k) && Visible(ls', j, s, k))
      {
        if Visible(ls', i, s, k) && Visible(ls', j, s, k) {
          if (s, k) == (a.section, a.key) {
            InsertVisibleSelf(ls, a, i);
            InsertVisibleSelf(ls, a, j);
          } else {
            InsertVisibleOther(ls, a, i, s, k);
            InsertVisibleOther(ls, a, j, s, k);
          }
        }
      }
    }
  }

  lemma {:induction false} BuiltIsTidy(ls: seq<string>, writes: seq<Assign>)
    requires AllTidy(ls) && OnceVisible(ls) && forall a :: a in writes ==> GoodWrite(a)
    ensures AllTidy(PutAll(ls, writes)) && OnceVisible(PutAll(ls, writes))
    decreases |writes|
  {
    if writes != [] {
      var a := writes[0];
      assert GoodWrite(a);
      PutIsTidy(ls, a);
      PutKeepsOnce(ls, a);
      BuiltIsTidy(Put(ls, a.section, a.key, a.value), writes[1..]);
    }
  }

  // ----- How the merging reader sees a tidy file -----

  /** The section of the nearest header above line i. */
  function Current(ls: seq<string>, i: nat): (r: Option<string>)
    requires i <= |ls| && forall j :: 0 <= j < i ==> Tidy(ls[j])
  {
    if i == 0 then None
    else if TidyHeader(ls[i-1]) then Some(ls[i-1][1..|ls[i-1]|-1])
    else Current(ls, i - 1)
  }

  lemma {:induction false} CurrentIsInSect(ls: seq<string>, i: nat, s: string)
    requires i <= |ls| && AllTidy(ls) && ValidSection(s)
    ensures InSect(ls, i, s) <==> Current(ls, i) == Some(s)
  {
    if i > 0 {
      assert Tidy(ls[i-1]);
      CurrentIsInSect(ls, i - 1, s);
      if TidyHeader(ls[i-1]) { TidyHeaderIsHeader(ls[i-1]); }
      else if TidyEntry(ls[i-1]) { TidyEntryIsEntry(ls[i-1]); }
    }
  }

  /** The assignments the lines from i on amount to. */
  function LineAssigns(ls: seq<string>, i: nat): seq<Assign>
    requires i <= |ls| && AllTidy(ls)
    decreases |ls| - i
  {
    if i == |ls| then [] else LineAssign(ls[i], Current(ls, i)) + LineAssigns(ls, i + 1)
  }

  lemma NextAtNewline(n: string, p: nat)
    requires p < |n| && n[p] == '\n'
    ensures Next(n, p) == Skip(p + 1)
  {}

  lemma NextAtHeader(n: string, p: nat, line: string)
    requires p + |line| < |n| && TidyHeader(line) && n[p..p+|line|] == line
    ensures Next(n, p) == Header(line[1..|line|-1], p + |line|)
  {
    forall i | 0 <= i < |line| ensures n[p+i] == line[i] { assert n[p..p+|line|][i] == line[i]; }
    assert BlankEnd(n, p) == p;
    var name, e := line[1..|line|-1], FirstOf(n, p + 1, ']');
    assert p + |line| - 1 < |n| && n[p + |line| - 1] == ']';
    forall i | p + 1 <= i < p + |line| - 1 ensures n[i] != ']' && n[i] != '\n' { assert n[i] == name[i-p-1]; }
    assert e == p + |line| - 1;
    assert n[p+1..e] == name;
  }

  /** Where the reader's scans stop in an entry of this key whose value starts at v and ends at f. */
  ghost predicate EntryStops(n: string, p: nat, k: string, v: nat, f: nat) {
    && p + |k| < v <= f < |n|
    && BlankEnd(n, p) == p && n[p] != '\n' && n[p] != '#' && n[p] != '['
    && FirstOf(n, p, '=') == p + |k| && n[p+|k|] == '=' && n[p..p+|k|] == k
    && BlankEnd(n, p + |k| + 1) == v && FirstNewline(n, v) == f && n[f] == '\n'
  }

  lemma EntryStopsHere(n: string, p: nat, line: string)
    requires p + |line| < |n| && TidyEntry(line) && NoNewline(line) && n[p..p+|line|] == line && n[p+|line|] == '\n'
    ensures IsEntry(line, TidyKey(line))
    ensures EntryStops(n, p, TidyKey(line), p + ValueAt(line, TidyKey(line)), p + |line|)
    ensures n[p + ValueAt(line, TidyKey(line))..p + |line|] == line[ValueAt(line, TidyKey(line))..]
  {
    var k := TidyKey(line);
    forall i | 0 <= i < |line| ensures n[p+i] == line[i] { assert n[p..p+|line|][i] == line[i]; }
    TidyEntryIsEntry(line);
    assert n[p] == line[0] && line[0] != '\n' by { assert line[0] in line; }
    KeyHere(n, p, line);
    EqualsHere(line, k);
    ValueHere(n, p, line, k);
  }

  lemma NextAtEntry(n: string, p: nat, k: string, v: nat, f: nat)
    requires EntryStops(n, p, k, v, f)
    ensures Next(n, p) == Item(Entry(TrimEnd(k), TrimEnd(n[v..f]), f))
  {
    EntryAtIs(n, p, p + |k|, v, f);
    NextIsItem(n, p);
  }

  lemma EntryAtIs(n: string, p: nat, e: nat, v: nat, f: nat)
    requires p <= |n| && FirstOf(n, p, '=') == e < |n| && n[e] == '='
    requires BlankEnd(n, e + 1) == v && FirstNewline(n, v) == f
    ensures EntryAt(n, p) == Some(Entry(TrimEnd(n[p..e]), TrimEnd(n[v..f]), f))
  {}

  lemma NextIsItem(n: string, p: nat)
    requires p < |n| && BlankEnd(n, p) == p && n[p] != '\n' && n[p] != '#' && n[p] != '['
    requires EntryAt(n, p).Some?
    ensures Next(n, p) == Item(EntryAt(n, p).value)
  {}

  lemma KeyHere(n: string, p: nat, line: string)
    requires p + |line| < |n| && TidyEntry(line) && forall i :: 0 <= i < |line| ==> n[p+i] == line[i]
    ensures FirstOf(n, p, '=') == p + |TidyKey(line)| && n[p..p+|TidyKey(line)|] == TidyKey(line)
    ensures n[p+|TidyKey(line)|] == '='
  {
    var e := FirstOf(line, 0, '=');
    var f := FirstOf(n, p, '=');
    assert n[p+e] == '=';
    forall i | p <= i < p + e ensures n[i] != '=' && n[i] != '\n' { assert n[i] == line[i-p]; }
    assert f < p + e || p + e < f || f == p + e;
  }

  lemma KeyHasNoTail(k: string)
    requires ValidKey(k)
    ensures TrimEnd(k) == k
  {}

  lemma EqualsHere(line: string, k: string)
    requires TidyEntry(line) && k == TidyKey(line) && IsEntry(line, k)
    ensures EqualsAt(line, k) == |k|
  {
    EqualsIsFirst(line, k);
    assert line[|k|] == '=';
    assert EqualsAt(line, k) < |k| || |k| < EqualsAt(line, k) || EqualsAt(line, k) == |k|;
    EntryIsLaidOut(line, k);
    assert forall i :: 0 <= i < |k| ==> line[i] != '=';
  }

  lemma ValueHere(n: string, p: nat, line: string, k: string)
    requires p + |line| < |n| && NoNewline(line) && n[p+|line|] == '\n'
    requires forall i :: 0 <= i < |line| ==> n[p+i] == line[i]
    requires IsEntry(line, k) && EqualsAt(line, k) == |k|
    ensures BlankEnd(n, p + |k| + 1) == p + ValueAt(line, k)
    ensures FirstNewline(n, p + ValueAt(line, k)) == p + |line|
    ensures n[p + ValueAt(line, k)..p + |line|] == line[ValueAt(line, k)..]
  {
    var v := ValueAt(line, k);
    EntryIsLaidOut(line, k);
    var b := BlankEnd(n, p + |k| + 1);
    assert forall i :: p + |k| + 1 <= i < p + v ==> Blank(n[i]) by {
      forall i | p + |k| + 1 <= i < p + v ensures Blank(n[i]) { assert n[i] == line[i-p]; }
    }
    assert !Blank(n[p + v]) by {
      if v < |line| { assert line[|k|+1..][v-|k|-1] == line[v] && n[p+v] == line[v]; }
    }
    assert b == p + v;
    forall i | p + v <= i < p + |line| ensures n[i] != '\n' { assert n[i] == line[i-p]; }
    assert n[p+v..p+|line|] == line[v..];
  }

  /** What one line adds. */
  function LineAssign(line: string, section: Option<string>): seq<Assign>
    requires Tidy(line)
  {
    if section.Some? && TidyEntry(line) && !TidyHeader(line)
    then TidyEntryIsEntry(line); [Assign(section.value, TidyKey(line), ValueOf(line, TidyKey(line)))]
    else []
  }

  lemma AssignsSkip(n: string, p: nat, section: Option<string>, q: nat)
    requires p <= |n| && Next(n, p) == Skip(q)
    ensures Assigns(n, p, section) == Assigns(n, q, section)
  {}

  lemma AssignsHeader(n: string, p: nat, section: Option<string>, name: string, q: nat)
    requires p <= |n| && Next(n, p) == Header(name, q)
    ensures Assigns(n, p, section) == Assigns(n, q, Some(name))
  {}

  lemma AssignsItem(n: string, p: nat, section: Option<string>, r: Entry)
    requires p <= |n| && Next(n, p) == Item(r)
    ensures Assigns(n, p, section) ==
      (if section.Some? then [Assign(section.value, r.key, r.value)] else []) + Assigns(n, r.end, section)
  {}

  lemma ReadsBlankLine(n: string, p: nat, section: Option<string>)
    requires p < |n| && n[p] == '\n'
    ensures Assigns(n, p, section) == Assigns(n, p + 1, section)
  {
    NextAtNewline(n, p);
    AssignsSkip(n, p, section, p + 1);
  }

  lemma ReadsHeaderLine(n: string, p: nat, line: string, section: Option<string>)
    requires p + |line| < |n| && TidyHeader(line) && n[p..p+|line|] == line && n[p+|line|] == '\n'
    ensures Assigns(n, p, section) == Assigns(n, p + |line| + 1, Some(line[1..|line|-1]))
  {
    hide Next, BlankEnd, Assigns;
    NextAtHeader(n, p, line);
    AssignsHeader(n, p, section, line[1..|line|-1], p + |line|);
    ReadsBlankLine(n, p + |line|, Some(line[1..|line|-1]));
  }

  lemma ReadsEntryLine(n: string, p: nat, section: Option<string>, r: Entry)
    requires p <= |n| && Next(n, p) == Item(r) && r.end < |n| && n[r.end] == '\n'
    ensures Assigns(n, p, section) ==
      (if section.Some? then [Assign(section.value, r.key, r.value)] else []) + Assigns(n, r.end + 1, section)
  {
    hide Assigns, Next;
    AssignsItem(n, p, section, r);
    ReadsBlankLine(n, r.end, section);
  }

  /** The token of a tidy entry. */
  lemma TidyNext(n: string, p: nat, line: string) returns (r: Entry)
    requires p + |line| < |n| && TidyEntry(line) && NoNewline(line) && n[p..p+|line|] == line && n[p+|line|] == '\n'
    ensures IsEntry(line, TidyKey(line)) && r == Entry(TidyKey(line), ValueOf(line, TidyKey(line)), p + |line|)
    ensures Next(n, p) == Item(r)
  {
    hide Tidy, Next, IsEntry, EntryStops, EqualsAt, TrimEnd;
    var k := TidyKey(line);
    EntryStopsHere(n, p, line);
    KeyHasNoTail(k);
    NextAtEntry(n, p, k, p + ValueAt(line, k), p + |line|);
    r := Next(n, p).entry;
  }

  lemma CurrentNext(ls: seq<string>, i: nat)
    requires AllTidy(ls) && i < |ls|
    ensures Current(ls, i + 1) == Onward(ls[i], Current(ls, i))
  {}

  /** The section after a line. */
  function Onward(line: string, section: Option<string>): Option<string> {
    if TidyHeader(line) then Some(line[1..|line|-1]) else section
  }

  lemma LineAssignEntry(line: string, section: Option<string>, r: Entry)
    requires Tidy(line) && TidyEntry(line) && !TidyHeader(line)
    requires r.key == TidyKey(line) && IsEntry(line, r.key) && r.value == ValueOf(line, r.key)
    ensures LineAssign(line, section) == if section.Some? then [Assign(section.value, r.key, r.value)] else []
  {}

  lemma ReadsTidyLine(n: string, p: nat, line: string, section: Option<string>)
    requires p + |line| < |n| && n[p..p+|line|] == line && n[p+|line|] == '\n' && Tidy(line)
    ensures Assigns(n, p, section) == LineAssign(line, section) + Assigns(n, p + |line| + 1, Onward(line, section))
  {
    hide TidyEntry, TidyHeader, Assigns, Next, IsEntry;
    var rest := Assigns(n, p + |line| + 1, Onward(line, section));
    assert [] + rest == rest;
    if TidyHeader(line) {
      assert Assigns(n, p, section) == rest by { ReadsHeaderLine(n, p, line, section); }
    } else if TidyEntry(line) {
      var r := TidyNext(n, p, line);
      LineAssignEntry(line, section, r);
      ReadsEntryLine(n, p, section, r);
    } else {
      ReadsBlankLine(n, p, section);
    }
  }

  lemma ReadsLine(ls: seq<string>, i: nat)
    requires AllTidy(ls) && i < |ls|
    ensures Off(ls, i) <= Off(ls, i + 1) <= |Join(ls)|
    ensures var n := Join(ls);
      Assigns(n, Off(ls, i), Current(ls, i)) ==
      LineAssign(ls[i], Current(ls, i)) + Assigns(n, Off(ls, i + 1), Current(ls, i + 1))
  {
    hide Tidy, Assigns, Current, Join, Off;
    LineInText(ls, i);
    CurrentNext(ls, i);
    ReadsTidyLine(Join(ls), Off(ls, i), ls[i], Current(ls, i));
  }

  lemma {:induction false} ReadsLines(ls: seq<string>, i: nat)
    requires AllTidy(ls) && i <= |ls|
    ensures Off(ls, i) <= |Join(ls)| && Assigns(Join(ls), Off(ls, i), Current(ls, i)) == LineAssigns(ls, i)
    decreases |ls| - i
  {
    SplitAt(ls, i);
    if i == |ls| {
      assert Join(ls)[Off(ls, i)..] == Join(ls[i..]) == "";
    } else {
      ReadsLine(ls, i);
      ReadsLines(ls, i + 1);
    }
  }

  lemma LastOfAppend(w: seq<Assign>, rest: seq<Assign>, s: string, k: string)
    requires |w| <= 1
    ensures LastOf(w + rest, s, k) ==
      if LastOf(rest, s, k).Some? then LastOf(rest, s, k)
      else if |w| == 1 && w[0].section == s && w[0].key == k then Some(w[0].value) else None
  {
    if |w| == 0 { assert w + rest == rest; } else { assert (w + rest)[1..] == rest; }
  }

  lemma LineAssignIs(ls: seq<string>, i: nat, s: string, k: string)
    requires AllTidy(ls) && i < |ls| && ValidSection(s) && ValidKey(k)
    ensures var w := LineAssign(ls[i], Current(ls, i));
      && |w| <= 1
      && (|w| == 1 && w[0].section == s && w[0].key == k <==> Visible(ls, i, s, k))
      && (Visible(ls, i, s, k) ==> w[0].value == ValueOf(ls[i], k))
  {
    var line := ls[i];
    assert Tidy(line);
    CurrentIsInSect(ls, i, s);
    if TidyHeader(line) { TidyHeaderIsHeader(line); } else if TidyEntry(line) { TidyEntryIsEntry(line); }
  }

  lemma OnlyOne(ls: seq<string>, i: nat, s: string, k: string)
    requires OnceVisible(ls) && i < |ls| && ValidSection(s) && ValidKey(k) && Visible(ls, i, s, k)
    ensures FindEntry(ls, i + 1, s, k).None?
  {
    forall j | i < j < |ls| ensures !Visible(ls, j, s, k) {}
  }

  /** With one entry per key, the last assignment is the first visible entry. */
  lemma {:induction false} LastIsFirst(ls: seq<string>, i: nat, s: string, k: string)
    requires AllTidy(ls) && OnceVisible(ls) && i <= |ls| && ValidSection(s) && ValidKey(k)
    ensures var r := FindEntry(ls, i, s, k);
      LastOf(LineAssigns(ls, i), s, k) == if r.Some? then Some(ValueOf(ls[r.value], k)) else None
    decreases |ls| - i
  {
    hide Visible, LineAssign, Tidy, Current;
    if i < |ls| {
      LastIsFirst(ls, i + 1, s, k);
      LineAssignIs(ls, i, s, k);
      LastOfAppend(LineAssign(ls[i], Current(ls, i)), LineAssigns(ls, i + 1), s, k);
      if Visible(ls, i, s, k) { OnlyOne(ls, i, s, k); }
    }
  }

  /** The merging reader and the looking-up reader agree on this entry of a file. */
  ghost predicate ReadAlike(ls: seq<string>, s: string, k: string) {
    LastOf(Assigns(Join(ls), 0, None), s, k) == Get(ls, s, k)
  }

  lemma BuiltReadsAlike(writes: seq<Assign>, s: string, k: string)
    requires (forall a :: a in writes ==> GoodWrite(a)) && ValidSection(s) && ValidKey(k)
    ensures ReadAlike(PutAll([], writes), s, k)
  {
    var built := PutAll([], writes);
    BuiltIsTidy([], writes);
    ReadsLines(built, 0);
    LastIsFirst(built, 0, s, k);
  }

  // ----- Keys that look like comments -----

  /** Whatever a text holds, the merging reader reads no such key out of it. */
  lemma {:induction false} NoHashRead(n: string, p: nat, section: Option<string>)
    requires p <= |n|
    ensures forall a :: a in Assigns(n, p, section) ==> !HashKey(a.key)
    decreases |n| - p
  {
    NextHasNoHash(n, p);
    hide Next, HashKey;
    match Next(n, p) {
      case Stop =>
      case Skip(q) => NoHashRead(n, q, section);
      case Header(name, q) => NoHashRead(n, q, Some(name));
      case Item(r) => NoHashRead(n, r.end, section);
    }
  }

  lemma NextHasNoHash(n: string, p: nat)
    requires p <= |n|
    ensures Next(n, p).Item? ==> !HashKey(Next(n, p).entry.key)
  {
    var q := BlankEnd(n, p);
    if Next(n, p).Item? {
      var raw := n[q..FirstOf(n, q, '=')];
      assert Next(n, p).entry.key == TrimEnd(raw);
      assert raw != "" ==> raw[0] == n[q];
    }
  }

  lemma {:induction false} LastOfKey(writes: seq<Assign>, s: string, k: string)
    ensures LastOf(writes, s, k).Some? <==> exists a :: a in writes && a.section == s && a.key == k
  {
    if writes != [] {
      LastOfKey(writes[1..], s, k);
      assert writes == [writes[0]] + writes[1..];
    }
  }

  /** A written entry that the getter finds and the merging reader does not. */
  lemma HashKeyIsLost(writes: seq<Assign>, a: Assign)
    requires (forall b :: b in writes ==> Writable(b)) && a in writes && HashKey(a.key)
    ensures var built := PutAll([], writes);
      Get(built, a.section, a.key).Some? && LastOf(Assigns(Join(built), 0, None), a.section, a.key).None?
  {
    var built := PutAll([], writes);
    assert Writable(a);
    PutAllReads([], writes, a.section, a.key);
    LastOfKey(writes, a.section, a.key);
    NoHashRead(Join(built), 0, None);
    LastOfKey(Assigns(Join(built), 0, None), a.section, a.key);
  }

  ghost predicate NoHash(writes: seq<Assign>) {
    forall a :: a in writes ==> !HashKey(a.key)
  }

  /** On files built by writes the two readers agree about every entry, exactly if no key starts with '#'. */
  lemma ReadersAgreeExactly(writes: seq<Assign>)
    requires forall a :: a in writes ==> Writable(a)
    ensures (forall s, k :: ValidSection(s) && ValidKey(k) ==> ReadAlike(PutAll([], writes), s, k)) <==> NoHash(writes)
  {
    if NoHash(writes) {
      forall s, k | ValidSection(s) && ValidKey(k) ensures ReadAlike(PutAll([], writes), s, k) {
        BuiltReadsAlike(writes, s, k);
      }
    } else {
      var a :| a in writes && HashKey(a.key);
      HashKeyIsLost(writes, a);
      assert Writable(a) && !ReadAlike(PutAll([], writes), a.section, a.key);
    }
  }

  /** After merging a built file into an old one, this entry reads as in the built file, or else as in the old one. */
  ghost predicate NewFirst(ls: seq<string>, built: seq<string>, s: string, k: string) {
    Get(PutAll(ls, Assigns(Join(built), 0, None)), s, k) ==
    if Get(built, s, k).Some? then Get(built, s, k) else Get(ls, s, k)
  }

  lemma MergeBuilt(ls: seq<string>, writes: seq<Assign>, s: string, k: string)
    requires (forall a :: a in writes ==> GoodWrite(a)) && ValidSection(s) && ValidKey(k)
    ensures NewFirst(ls, PutAll([], writes), s, k)
  {
    MergeReads(ls, Join(PutAll([], writes)), s, k);
    BuiltReadsAlike(writes, s, k);
  }

  /** Merging a built file is asking it first and the old file second, exactly if none of its keys starts with '#'. */
  lemma MergeBuiltExactly(writes: seq<Assign>)
    requires forall a :: a in writes ==> Writable(a)
    ensures (forall ls, s, k :: ValidSection(s) && ValidKey(k) ==> NewFirst(ls, PutAll([], writes), s, k))
      <==> NoHash(writes)
  {
    if NoHash(writes) {
      forall ls, s, k | ValidSection(s) && ValidKey(k) ensures NewFirst(ls, PutAll([], writes), s, k) {
        MergeBuilt(ls, writes, s, k);
      }
    } else {
      var a :| a in writes && HashKey(a.key);
      var built := PutAll([], writes);
      HashKeyIsLost(writes, a);
      assert Writable(a);
      MergeReads([], Join(built), a.section, a.key);
      assert Get([], a.section, a.key).None? && !NewFirst([], built, a.section, a.key);
    }
  }
}
