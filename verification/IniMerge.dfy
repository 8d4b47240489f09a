/**
 * iniMerge of inifile.c: which assignments it reads out of a text, that merging is
 * writing them in order, and what the merged file says.
 */
module IniMerge {
  import opened Wrappers
  import opened CStrings
  import opened IniLines
  import opened IniLens
  import opened IniFile

  datatype Assign = Assign(section: string, key: string, value: string)

  // ----- Reading assignments -----

  /** The first position at or after p that holds c or ends the line or the text. */
  function FirstOf(n: string, p: nat, c: char): (e: nat)
    requires p <= |n|
    ensures p <= e <= |n| && (e < |n| ==> n[e] == c || n[e] == '\n')
    ensures forall i :: p <= i < e ==> n[i] != c && n[i] != '\n'
    decreases |n| - p
  {
    if p == |n| || n[p] == c || n[p] == '\n' then p else FirstOf(n, p + 1, c)
  }

  datatype Entry = Entry(key: string, value: string, end: nat)

  /** Key and value in the line from p on, if it has a '='; `end` is its newline or the end of the text. */
  function EntryAt(n: string, p: nat): (r: Option<Entry>)
    requires p <= |n|
    ensures r.Some? ==> p < r.value.end <= |n|
  {
    var e := FirstOf(n, p, '=');
    if e == |n| || n[e] != '=' then None
    else
      var v := BlankEnd(n, e + 1);
      var f := FirstNewline(n, v);
      Some(Entry(TrimEnd(n[p..e]), TrimEnd(n[v..f]), f))
  }

  /** What the reader meets next. */
  datatype Token =
    | Stop
    | Skip(next: nat)
    | Header(name: string, next: nat)
    | Item(entry: Entry)

  /**
   * A comment without an end, a '[' without ']' and a key without '=' end the
   * reading. After a header the reader goes on in the same line.
   */
  function Next(n: string, p0: nat): (t: Token)
    requires p0 <= |n|
    ensures t.Skip? || t.Header? ==> p0 < t.next <= |n|
    ensures t.Item? ==> p0 < t.entry.end <= |n|
  {
    var p := BlankEnd(n, p0);
    if p == |n| then Stop
    else if n[p] == '\n' then Skip(p + 1)
    else if n[p] == '#' then
      var e := FirstNewline(n, p + 1);
      if e == |n| then Stop else Skip(e + 1)
    else if n[p] == '[' then
      var e := FirstOf(n, p + 1, ']');
      if e == |n| || n[e] != ']' then Stop else Header(n[p+1..e], e + 1)
    else
      var r := EntryAt(n, p);
      if r.None? then Stop else Item(r.value)
  }

  /** The assignments from position p on, given the section read last. */
  function Assigns(n: string, p: nat, section: Option<string>): seq<Assign>
    requires p <= |n|
    decreases |n| - p
  {
    match Next(n, p)
    case Stop => []
    case Skip(q) => Assigns(n, q, section)
    case Header(name, q) => Assigns(n, q, Some(name))
    case Item(r) =>
      (if section.Some? then [Assign(section.value, r.key, r.value)] else []) + Assigns(n, r.end, section)
  }

  /** Names and a value that stay on their line and cannot be mistaken for others. */
  predicate Writable(a: Assign) {
    ValidSection(a.section) && ValidKey(a.key) && NoNewline(a.value)
  }

  predicate ValidAssign(a: Assign) {
    Writable(a) && Trim(a.value) == a.value
  }

  lemma KeyIsValid(n: string, p: nat, e: nat)
    requires p <= e <= |n| && (p < e ==> !Blank(n[p]) && n[p] != '[')
    requires forall i :: p <= i < e ==> n[i] != '=' && n[i] != '\n'
    ensures ValidKey(TrimEnd(n[p..e]))
  {
    var raw := n[p..e];
    var k := TrimEnd(raw);
    forall i | 0 <= i < |k| ensures k[i] == n[p+i] && k[i] != '=' && k[i] != '\n' { assert k[i] == raw[i]; }
    if p < e {
      assert raw[0] == n[p];
    }
  }

  lemma ValueIsTrimmed(n: string, v: nat, f: nat)
    requires v <= f <= |n| && (v < f ==> !Blank(n[v])) && forall i :: v <= i < f ==> n[i] != '\n'
    ensures var value := TrimEnd(n[v..f]); NoNewline(value) && Trim(value) == value
  {
    var raw := n[v..f];
    var value := TrimEnd(raw);
    forall i | 0 <= i < |value| ensures value[i] == n[v+i] { assert value[i] == raw[i]; }
    BlankEndIs(value, 0, 0);
    assert value[0..] == value;
  }

  lemma EntryIsValid(n: string, p: nat)
    requires p < |n| && !Blank(n[p]) && n[p] != '[' && EntryAt(n, p).Some?
    ensures var r := EntryAt(n, p).value;
      ValidKey(r.key) && NoNewline(r.value) && Trim(r.value) == r.value
  {
    hide FirstOf, BlankEnd, FirstNewline, TrimEnd, ValidKey, Trim, NoNewline;
    var e := FirstOf(n, p, '=');
    var v := BlankEnd(n, e + 1);
    KeyIsValid(n, p, e);
    ValueIsTrimmed(n, v, FirstNewline(n, v));
  }

  lemma EntryHasNoNul(n: string, p: nat)
    requires p < |n| && NoNul(n) && EntryAt(n, p).Some?
    ensures var r := EntryAt(n, p).value; NoNul(r.key) && NoNul(r.value)
  {
    hide FirstOf, BlankEnd, FirstNewline, TrimEnd, NoNul;
    var e := FirstOf(n, p, '=');
    var v := BlankEnd(n, e + 1);
    PartHasNoNul(n, p, e);
    PartHasNoNul(n, v, FirstNewline(n, v));
  }

  lemma NextIsValid(n: string, p: nat)
    requires p <= |n|
    ensures var t := Next(n, p);
      && (t.Header? ==> ValidSection(t.name) && (NoNul(n) ==> NoNul(t.name)))
      && (t.Item? ==> ValidKey(t.entry.key) && NoNewline(t.entry.value) && Trim(t.entry.value) == t.entry.value)
      && (t.Item? && NoNul(n) ==> NoNul(t.entry.key) && NoNul(t.entry.value))
  {
    var q := BlankEnd(n, p);
    if Next(n, p).Item? {
      EntryIsValid(n, q);
      if NoNul(n) { EntryHasNoNul(n, q); }
    }
  }

  /** Whatever the text holds, the names and values read out of it are fit for writing. */
  lemma {:induction false} AssignsAreValid(n: string, p: nat, section: Option<string>)
    requires p <= |n| && (section.Some? ==> ValidSection(section.value))
    ensures forall a :: a in Assigns(n, p, section) ==> ValidAssign(a)
    decreases |n| - p
  {
    hide Next, Trim, ValidKey, ValidSection, NoNewline;
    NextIsValid(n, p);
    match Next(n, p) {
      case Stop =>
      case Skip(q) => AssignsAreValid(n, q, section);
      case Header(name, q) => AssignsAreValid(n, q, Some(name));
      case Item(r) => AssignsAreValid(n, r.end, section);
    }
  }

  // ----- Writing them -----

  function PutAll(ls: seq<string>, writes: seq<Assign>): seq<string>
    decreases |writes|
  {
    if writes == [] then ls
    else PutAll(Put(ls, writes[0].section, writes[0].key, writes[0].value), writes[1..])
  }

  /** The last value assigned to a key of a section, if any. */
  function LastOf(writes: seq<Assign>, s: string, k: string): Option<string> {
    if writes == [] then None
    else
      var r := LastOf(writes[1..], s, k);
      if r.Some? then r
      else if writes[0].section == s && writes[0].key == k then Some(writes[0].value) else None
  }

  lemma {:induction false} PutAllReads(ls: seq<string>, writes: seq<Assign>, s: string, k: string)
    requires ValidSection(s) && ValidKey(k) && forall a :: a in writes ==> Writable(a)
    ensures var r := LastOf(writes, s, k);
      Get(PutAll(ls, writes), s, k) == if r.Some? then Some(Trim(r.value)) else Get(ls, s, k)
    decreases |writes|
  {
    if writes != [] {
      var a := writes[0];
      assert Writable(a);
      PutAllReads(Put(ls, a.section, a.key, a.value), writes[1..], s, k);
      if (a.section, a.key) == (s, k) {
        PutThenGet(ls, s, k, a.value);
      } else {
        PutKeepsOthers(ls, a.section, a.key, a.value, s, k);
      }
    }
  }

  lemma {:induction false} LastOfIsValid(writes: seq<Assign>, s: string, k: string)
    requires forall a :: a in writes ==> ValidAssign(a)
    ensures LastOf(writes, s, k).Some? ==> Trim(LastOf(writes, s, k).value) == LastOf(writes, s, k).value
  {
    hide Trim, ValidKey, ValidSection, NoNewline;
    if writes != [] {
      assert ValidAssign(writes[0]);
      LastOfIsValid(writes[1..], s, k);
    }
  }

  lemma {:induction false} PutAllIsClean(ls: seq<string>, writes: seq<Assign>)
    requires CleanLines(ls) && forall a :: a in writes ==> Writable(a)
    ensures CleanLines(PutAll(ls, writes))
    decreases |writes|
  {
    if writes != [] {
      var a := writes[0];
      assert Writable(a);
      PutIsClean(ls, a.section, a.key, a.value);
      PutAllIsClean(Put(ls, a.section, a.key, a.value), writes[1..]);
    }
  }

  /**
   * Last writer wins: every entry of the merged file reads as its last assignment
   * in the new text, and as in the old file if it has none. For every old file and
   * every new text.
   */
  lemma MergeReads(ls: seq<string>, n: string, s: string, k: string)
    requires ValidSection(s) && ValidKey(k)
    ensures var writes := Assigns(n, 0, None);
      Get(PutAll(ls, writes), s, k) == if LastOf(writes, s, k).Some? then LastOf(writes, s, k) else Get(ls, s, k)
  {
    AssignsAreValid(n, 0, None);
    LastOfIsValid(Assigns(n, 0, None), s, k);
    PutAllReads(ls, Assigns(n, 0, None), s, k);
  }

  /** The merged file is again a text of whole lines, so that it can be read, written and merged into. */
  lemma MergeKeepsLines(text: string, n: string)
    ensures var ls := PutAll(Lines(text), Assigns(n, 0, None)); Terminated(Join(ls)) && Lines(Join(ls)) == ls
  {
    AssignsAreValid(n, 0, None);
    PutAllIsClean(Lines(text), Assigns(n, 0, None));
    LinesJoin(PutAll(Lines(text), Assigns(n, 0, None)));
  }

  // ----- The code -----

  /** To c or the end of the line, whichever comes first. */
  method SkipTo(a: seq<char>, p: nat, c: char) returns (e: nat)
    requires IsCString(a) && p < |a| && c != '\0'
    ensures e < |a| && e == FirstOf(Text(a), p, c)
  {
    e := p;
    while a[e] != c && a[e] != '\0' && a[e] != '\n'
      invariant p <= e < |a| && FirstOf(Text(a), e, c) == FirstOf(Text(a), p, c)
      decreases |a| - e
    {
      e := e + 1;
    }
  }

  method SkipToNewline(a: seq<char>, p: nat) returns (e: nat)
    requires IsCString(a) && p < |a|
    ensures e < |a| && e == FirstNewline(Text(a), p)
  {
    e := p;
    while a[e] != '\0' && a[e] != '\n'
      invariant p <= e < |a| && FirstNewline(Text(a), e) == FirstNewline(Text(a), p)
      decreases |a| - e
    {
      e := e + 1;
    }
  }

  method SkipBlanksTo(a: seq<char>, p: nat) returns (e: nat)
    requires IsCString(a) && p < |a|
    ensures e < |a| && e == BlankEnd(Text(a), p)
  {
    e := p;
    while Blank(a[e])
      invariant p <= e < |a| && BlankEnd(Text(a), e) == BlankEnd(Text(a), p)
      decreases |a| - e
    {
      e := e + 1;
    }
  }

  /** The branch for keys and values; None on a line without '='. */
  method ReadAssign(a: seq<char>, p: nat) returns (r: Option<Entry>)
    requires IsCString(a) && p < |a|
    ensures r == EntryAt(Text(a), p)
  {
    hide FirstOf, BlankEnd, FirstNewline, TrimEnd;
    var e := SkipTo(a, p, '=');
    if a[e] != '=' { return None; }
    var ce := TrimBack(a, p, e);
    var key := a[p..ce];
    assert Text(a)[p..e] == a[p..e];
    var v := SkipBlanksTo(a, e + 1);
    var f := SkipToNewline(a, v);
    ce := TrimBack(a, v, f);
    assert Text(a)[v..f] == a[v..f];
    r := Some(Entry(key, a[v..ce], f));
  }

  /** What the reader has done at position p of the new text. */
  ghost predicate Merging(data0: Option<seq<char>>, data: Option<seq<char>>, n: string, p: nat,
                          section: Option<string>, done: bool)
    requires data0.Some? ==> |data0.value| > 0
  {
    && GoodData(data) && p <= |n| && (section.Some? ==> ValidSection(section.value) && NoNul(section.value))
    && var all := PutAll(DataLines(data0), Assigns(n, 0, None));
       if done then DataLines(data) == all else PutAll(DataLines(data), Assigns(n, p, section)) == all
  }

  lemma PutAllFront(ls: seq<string>, w: Assign, rest: seq<Assign>)
    ensures PutAll(ls, [w] + rest) == PutAll(Put(ls, w.section, w.key, w.value), rest)
  {
    assert ([w] + rest)[1..] == rest;
  }

  /** iniMerge: read assignments one by one and write each into the data. */
  method Merge(data0: Option<seq<char>>, newdata: Option<seq<char>>) returns (data: Option<seq<char>>)
    requires GoodData(data0) && (newdata.Some? ==> IsCString(newdata.value))
    ensures GoodData(data)
    ensures newdata.None? ==> data == data0
    ensures newdata.Some? ==> DataLines(data) == PutAll(DataLines(data0), Assigns(Text(newdata.value), 0, None))
  {
    data := data0;
    if newdata.None? { return; }
    var a := newdata.value;
    var p: nat, done := 0, false;
    var section: Option<string> := None;
    while !done
      invariant Merging(data0, data, Text(a), p, section, done)
      decreases if done then 0 else 1, |a| - p
    {
      var t := NextToken(a, p);
      NextIsValid(Text(a), p);
      match t {
        case Stop => done := true;
        case Skip(q) => p := q;
        case Header(name, q) => section, p := Some(name), q;
        case Item(r) =>
          ghost var rest := Assigns(Text(a), r.end, section);
          if section.Some? {
            PutAllFront(DataLines(data), Assign(section.value, r.key, r.value), rest);
            var ndata := AddAssign(data, section.value, r.key, r.value);
            data := Some(ndata);
          } else {
            assert [] + rest == rest;
          }
          p := r.end;
      }
    }
  }

  /** The reading half of the loop body of iniMerge. */
  method NextToken(a: seq<char>, p0: nat) returns (t: Token)
    requires IsCString(a) && p0 < |a|
    ensures t == Next(Text(a), p0)
  {
    var p := SkipBlanksTo(a, p0);
    if a[p] == '\0' { return Stop; }
    if a[p] == '\n' { return Skip(p + 1); }
    if a[p] == '#' {
      p := SkipToNewline(a, p + 1);
      return if a[p] == '\0' then Stop else Skip(p + 1);
    }
    if a[p] == '[' {
      var e := SkipTo(a, p + 1, ']');
      if a[e] != ']' { return Stop; }
      assert Text(a)[p+1..e] == a[p+1..e];
      return Header(a[p+1..e], e + 1);
    }
    var r := ReadAssign(a, p);
    t := if r.None? then Stop else Item(r.value);
  }

  method AddAssign(data: Option<seq<char>>, section: string, key: string, value: string) returns (r: seq<char>)
    requires GoodData(data) && NoNewline(section) && NoNewline(key) && NoNewline(value)
    requires NoNul(section) && NoNul(key) && NoNul(value)
    ensures GoodData(Some(r)) && DataLines(Some(r)) == Put(DataLines(data), section, key, value)
  {
    hide Put, Lines, FindEntry, InSect, IsEntry;
    var ndata := Write(data, section, key, value);
    r := ndata[..];
    ghost var ls := Put(DataLines(data), section, key, value);
    PutIsClean(DataLines(data), section, key, value);
    LinesJoin(ls);
    WrittenHasNoNul(data, section, key, value);
    assert r[..|r|-1] == Join(ls);
  }

  lemma PartHasNoNul(n: string, i: nat, j: nat)
    requires i <= j <= |n| && NoNul(n)
    ensures NoNul(TrimEnd(n[i..j]))
  {}

  lemma {:induction false} JoinHasNoNul(ls: seq<string>)
    requires forall i :: 0 <= i < |ls| ==> NoNul(ls[i])
    ensures NoNul(Join(ls))
  {
    if ls != [] { JoinHasNoNul(ls[1..]); }
  }

  lemma {:induction false} LinesHaveNoNul(t: string)
    requires NoNul(t)
    ensures forall i :: 0 <= i < |Lines(t)| ==> NoNul(Lines(t)[i])
  {
    if t != "" {
      var k := FirstNewline(t, 0);
      if k < |t| { LinesHaveNoNul(t[k+1..]); }
    }
  }

  lemma WrittenHasNoNul(data: Option<seq<char>>, section: string, key: string, value: string)
    requires GoodData(data) && NoNul(section) && NoNul(key) && NoNul(value)
    ensures NoNul(Join(Put(DataLines(data), section, key, value)))
  {
    var ls := DataLines(data);
    if data.Some? { LinesHaveNoNul(Text(data.value)); }
    PutHasNoNul(ls, section, key, value);
    JoinHasNoNul(Put(ls, section, key, value));
  }

  lemma PutHasNoNul(ls: seq<string>, s: string, k: string, v: string)
    requires (forall i :: 0 <= i < |ls| ==> NoNul(ls[i])) && NoNul(s) && NoNul(k) && NoNul(v)
    ensures forall i :: 0 <= i < |Put(ls, s, k, v)| ==> NoNul(Put(ls, s, k, v)[i])
  {
    PutKeeps(ls, s, k, v, NoNul);
  }
}
