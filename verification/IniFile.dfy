/**
 * iniEntry of inifile.c on NUL-terminated buffers: one pass over the text that
 * either reads an entry or builds the edited file in a buffer of exactly the
 * right size.
 */
module IniFile {
  import opened Wrappers
  import opened CStrings
  import opened IniLines
  import opened IniLens

  /** Reading a string constant up to and including its terminator. */
  function CharAt(s: string, i: nat): char
    requires i <= |s|
  {
    if i < |s| then s[i] else '\0'
  }

  method SkipBlanks(a: seq<char>, p: nat) returns (q: nat)
    requires IsCString(a) && p < |a|
    ensures p <= q < |a| && !Blank(a[q]) && forall j :: p <= j < q ==> Blank(a[j])
  {
    q := p;
    while Blank(a[q])
      invariant p <= q < |a| && forall j :: p <= j < q ==> Blank(a[j])
      decreases |a| - q
    {
      q := q + 1;
    }
  }

  /** To the start of the next line; `e` is where the current one ends. */
  method SkipLine(a: seq<char>, p: nat, ghost e: nat) returns (q: nat)
    requires p <= e < |a| && a[e] == '\n' && forall j :: p <= j < e ==> a[j] != '\n'
    ensures q == e + 1
  {
    q := p;
    while a[q] != '\n'
      invariant p <= q <= e
      decreases e - q
    {
      q := q + 1;
    }
    q := q + 1;
  }

  /** The text from p agrees with the first n characters of s, and no further. */
  ghost predicate Matched(a: seq<char>, p: nat, s: string, n: nat) {
    && n <= |s| && p + n < |a| && (forall j :: 0 <= j < n ==> a[p+j] == s[j])
    && (n < |s| ==> a[p+n] != s[n])
  }

  /** How far the text agrees with s; the comparison includes the terminator of s. */
  method MatchAhead(a: seq<char>, p: nat, s: string, ghost e: nat) returns (n: nat)
    requires IsCString(a) && p <= e < |a| - 1 && a[e] == '\n'
    requires NoNewline(s) && NoNul(s)
    ensures Matched(a, p, s, n) && p + n <= e
  {
    n := 0;
    while a[p+n] == CharAt(s, n)
      invariant n <= |s| && p + n <= e && forall j :: 0 <= j < n ==> a[p+j] == s[j]
      decreases |s| - n
    {
      n := n + 1;
    }
  }

  // ----- A line, in place -----

  /** Line `line` occupies a[o..e], and its newline is at e. */
  ghost predicate LineHere(a: seq<char>, o: nat, e: nat, line: string) {
    && o <= e < |a| - 1 && e == o + |line| && a[e] == '\n'
    && forall j :: o <= j < e ==> a[j] == line[j-o] && a[j] != '\n'
  }

  /** Skipping blanks within a line stops where its blanks end. */
  lemma BlanksSkipped(a: seq<char>, o: nat, e: nat, line: string, p: nat, q: nat)
    requires LineHere(a, o, e, line) && o <= p <= e && p <= q < |a|
    requires !Blank(a[q]) && forall j :: p <= j < q ==> Blank(a[j])
    ensures q <= e && q - o == BlankEnd(line, p - o)
  {
    assert !Blank(a[e]);
    forall i | p - o <= i < q - o ensures Blank(line[i]) { assert a[o + i] == line[i]; }
    BlankEndIs(line, p - o, q - o);
  }

  /** Matching to the end tells whether the string stands there. */
  lemma MatchedReads(a: seq<char>, o: nat, e: nat, line: string, p: nat, s: string, n: nat)
    requires LineHere(a, o, e, line) && o <= p && p + n <= e && Matched(a, p, s, n)
    ensures Reads(line, p - o, s) <==> n == |s|
  {
    forall i | 0 <= i < n ensures line[p-o+i] == s[i] { assert a[p+i] == line[p+i-o]; }
    if n < |s| && p + n < e { assert line[p-o+n] != s[n]; }
  }

  /** The branch for lines that start with '['; q is at the bracket. */
  method AtHeader(a: seq<char>, q: nat, section: string, ghost o: nat, ghost e: nat, ghost line: string)
    returns (insect: bool, p: nat)
    requires IsCString(a) && LineHere(a, o, e, line) && NoNewline(section) && NoNul(section)
    requires q == o + LeadingBlanks(line) && q < e && a[q] == '['
    ensures insect <==> IsHeader(line, section)
    ensures AnyHeader(line) && o <= p <= e
  {
    var n := MatchAhead(a, q + 1, section, e);
    MatchedReads(a, o, e, line, q + 1, section, n);
    p := q + 1 + n;
    insect := n == |section| && a[p] == ']';
  }

  /** The branch for lines of the section; q is at the first character that is not blank. */
  method AtEntry(a: seq<char>, q: nat, key: string, ghost o: nat, ghost e: nat, ghost line: string)
    returns (hit: bool, p: nat)
    requires IsCString(a) && LineHere(a, o, e, line) && NoNewline(key) && NoNul(key)
    requires q == o + LeadingBlanks(line) && q < e && a[q] != '['
    ensures hit <==> IsEntry(line, key)
    ensures o <= p <= e && (hit ==> p == o + ValueAt(line, key))
  {
    var n := MatchAhead(a, q, key, e);
    MatchedReads(a, o, e, line, q, key, n);
    p := SkipBlanks(a, q + n);
    BlanksSkipped(a, o, e, line, q + n, p);
    hit := n == |key| && a[p] == '=';
    if hit {
      var eq := p;
      p := SkipBlanks(a, eq + 1);
      BlanksSkipped(a, o, e, line, eq + 1, p);
    }
  }

  // ----- The scan -----

  function InsertAt(ls: seq<string>, r: Option<nat>): Option<nat>
    requires r.Some? ==> r.value < |ls|
  {
    if r.Some? then Some(Off(ls, r.value + 1)) else None
  }

  /** An entry found in line i: its value starts at cb and its line ends before ce. */
  ghost predicate FoundAt(ls: seq<string>, section: string, key: string, i: nat, cb: nat, ce: nat) {
    && FindEntry(ls, 0, section, key) == Some(i)
    && cb == Off(ls, i) + ValueAt(ls[i], key) && ce == Off(ls, i + 1)
  }

  /** What the scan knows when it has read i lines. */
  ghost predicate Scanned(ls: seq<string>, section: string, key: string, i: nat, p: nat,
                          insect: bool, secinsert: Option<nat>, pastinsert: Option<nat>)
  {
    && i <= |ls| && p == Off(ls, i) && insect == InSect(ls, i, section)
    && (forall j :: 0 <= j < i ==> !Visible(ls, j, section, key))
    && secinsert == InsertAt(ls, LastOfSection(ls, i, section))
    && pastinsert == InsertAt(ls, LastOutside(ls, i, section))
  }

  /** One more line, which is not the entry looked for. */
  lemma ScannedOne(ls: seq<string>, section: string, key: string, i: nat, p: nat,
                   insect: bool, secinsert: Option<nat>, pastinsert: Option<nat>, insect': bool)
    requires Scanned(ls, section, key, i, p, insect, secinsert, pastinsert) && i < |ls|
    requires !Visible(ls, i, section, key)
    requires insect' <==> if AnyHeader(ls[i]) then IsHeader(ls[i], section) else insect
    ensures var p' := p + |ls[i]| + 1;
      Scanned(ls, section, key, i + 1, p', insect',
              if !BlankLine(ls[i]) && insect' then Some(p') else secinsert,
              if !BlankLine(ls[i]) && !insect' then Some(p') else pastinsert)
  {}

  /** The loop body of the scan. */
  method ScanLine(a: seq<char>, ghost ls: seq<string>, section: string, key: string, ghost i: nat,
                  p0: nat, insect0: bool, secinsert0: Option<nat>, pastinsert0: Option<nat>)
    returns (hit: bool, cb: nat, p: nat, insect: bool, secinsert: Option<nat>, pastinsert: Option<nat>)
    requires IsCString(a) && CleanLines(ls) && Join(ls) == Text(a)
    requires NoNewline(section) && NoNul(section) && NoNewline(key) && NoNul(key)
    requires Scanned(ls, section, key, i, p0, insect0, secinsert0, pastinsert0) && i < |ls|
    ensures hit ==> FoundAt(ls, section, key, i, cb, p)
    ensures !hit ==> Scanned(ls, section, key, i + 1, p, insect, secinsert, pastinsert)
  {
    hit, cb, p, insect, secinsert, pastinsert := false, 0, p0, insect0, secinsert0, pastinsert0;
    ghost var line, e := ls[i], p + |ls[i]|;
    LineOf(a, ls, i);
    var q := SkipBlanks(a, p);
    BlanksSkipped(a, p0, e, line, p, q);
    if a[q] == '\n' {
      p := q + 1;
    } else {
      p := q;
      if a[q] == '[' {
        insect, p := AtHeader(a, q, section, p0, e, line);
      } else if insect {
        hit, p := AtEntry(a, q, key, p0, e, line);
        if hit {
          cb := p;
          p := SkipLine(a, cb, e);
          FoundFirst(ls, i, section, key);
          return;
        }
      }
      p := SkipLine(a, p, e);
      if insect {
        secinsert := Some(p);
      } else {
        pastinsert := Some(p);
      }
    }
    ScannedOne(ls, section, key, i, p0, insect0, secinsert0, pastinsert0, insect);
  }

  method Scan(a: seq<char>, ghost ls: seq<string>, section: string, key: string)
    returns (hit: bool, cb: nat, ce: nat, secinsert: Option<nat>, pastinsert: Option<nat>, ghost i: nat)
    requires IsCString(a) && CleanLines(ls) && Join(ls) == Text(a)
    requires NoNewline(section) && NoNul(section) && NoNewline(key) && NoNul(key)
    ensures hit ==> FoundAt(ls, section, key, i, cb, ce)
    ensures !hit ==>
      && FindEntry(ls, 0, section, key).None?
      && secinsert == InsertAt(ls, LastOfSection(ls, |ls|, section))
      && pastinsert == InsertAt(ls, LastOutside(ls, |ls|, section))
      && ce == |a| - 1
  {
    var p: nat, insect := 0, false;
    hit, cb, secinsert, pastinsert, i := false, 0, None, None, 0;
    LineStart(a, ls, i);
    while a[p] != '\0'
      invariant Scanned(ls, section, key, i, p, insect, secinsert, pastinsert)
      invariant p < |a| && (a[p] == '\0' <==> i == |ls|) && (i == |ls| ==> p == |a| - 1)
      invariant i <= |ls|
      decreases |ls| - i
    {
      hit, cb, p, insect, secinsert, pastinsert :=
        ScanLine(a, ls, section, key, i, p, insect, secinsert, pastinsert);
      if hit {
        return hit, cb, p, secinsert, pastinsert, i;
      }
      i := i + 1;
      LineStart(a, ls, i);
    }
    ce := p;
  }

  lemma LineStart(a: seq<char>, ls: seq<string>, i: nat)
    requires IsCString(a) && CleanLines(ls) && Join(ls) == Text(a) && i <= |ls|
    ensures Off(ls, i) < |a| && (a[Off(ls, i)] == '\0' <==> i == |ls|)
    ensures i == |ls| ==> Off(ls, i) == |a| - 1
  {
    if i < |ls| { LineOf(a, ls, i); } else { LinesEnd(ls); }
  }

  lemma LinesEnd(ls: seq<string>)
    ensures Off(ls, |ls|) == |Join(ls)|
  {
    OffIsJoin(ls, |ls|);
    assert ls[..|ls|] == ls;
  }

  lemma LineOf(a: seq<char>, ls: seq<string>, i: nat)
    requires IsCString(a) && CleanLines(ls) && Join(ls) == Text(a) && i < |ls|
    ensures LineHere(a, Off(ls, i), Off(ls, i) + |ls[i]|, ls[i]) && Off(ls, i + 1) == Off(ls, i) + |ls[i]| + 1
    ensures a[Off(ls, i)] != '\0'
  {
    LineInText(ls, i);
    var t, o := Join(ls), Off(ls, i);
    assert t[o..o+|ls[i]|] == a[o..o+|ls[i]|];
  }

  // ----- The edited text -----

  lemma CutString(front: string, line: string, rest: string, e: nat)
    requires e <= |line|
    ensures var t := front + (line + ("\n" + rest));
      t[..|front| + e] == front + line[..e] && t[|front| + |line| + 1..] == rest
  {}

  lemma TextOfOverwrite(ls: seq<string>, i: nat, e: nat, v: string)
    requires i < |ls| && e <= |ls[i]|
    ensures var t := Join(ls);
      && Off(ls, i) + e <= Off(ls, i + 1) <= |t|
      && Join(ls[i := ls[i][..e] + v]) == t[..Off(ls, i) + e] + (v + "\n") + t[Off(ls, i + 1)..]
  {
    var front, rest := Join(ls[..i]), Join(ls[i+1..]);
    var line := ls[i][..e] + v;
    JoinAround(ls, i, ls[i]);
    assert ls[i := ls[i]] == ls;
    JoinAround(ls, i, line);
    OffIsJoin(ls, i);
    CutString(front, ls[i], rest, e);
    assert front + (line + ("\n" + rest)) == (front + ls[i][..e]) + (v + "\n") + rest;
  }

  lemma JoinAround(ls: seq<string>, i: nat, line: string)
    requires i < |ls|
    ensures Join(ls[i := line]) == Join(ls[..i]) + (line + ("\n" + Join(ls[i+1..])))
  {
    assert ls[i := line] == ls[..i] + ([line] + ls[i+1..]);
    JoinConcat(ls[..i], [line] + ls[i+1..]);
    JoinCons(line, ls[i+1..]);
  }

  lemma TextOfInsert(ls: seq<string>, n: nat, mid: seq<string>)
    requires n <= |ls|
    ensures var t := Join(ls);
      Off(ls, n) <= |t| && Join(Insert(ls, n, mid)) == t[..Off(ls, n)] + Join(mid) + t[Off(ls, n)..]
  {
    SplitAt(ls, n);
    JoinConcat(ls[..n] + mid, ls[n..]);
    JoinConcat(ls[..n], mid);
  }

  // ----- Writing -----

  /** apparr: copy n characters of s from position lo. */
  method AppArr(dst: array<char>, pos: nat, s: seq<char>, lo: nat, n: nat) returns (end: nat)
    requires lo + n <= |s| && pos + n <= dst.Length
    modifies dst
    ensures end == pos + n && dst[..end] == old(dst[..pos]) + s[lo..lo+n]
  {
    var i := 0;
    while i < n
      invariant 0 <= i <= n
      invariant dst[..pos] == old(dst[..pos])
      invariant forall j :: pos <= j < pos + i ==> dst[j] == s[lo+j-pos]
    {
      dst[pos+i] := s[lo+i];
      i := i + 1;
    }
    end := pos + n;
    assert dst[..end] == dst[..pos] + dst[pos..end];
    assert dst[pos..end] == s[lo..lo+n];
  }

  /** appbyte */
  method AppByte(dst: array<char>, pos: nat, c: char) returns (end: nat)
    requires pos < dst.Length
    modifies dst
    ensures end == pos + 1 && dst[..end] == old(dst[..pos]) + [c]
  {
    dst[pos] := c;
    end := pos + 1;
    assert dst[..end] == dst[..pos] + [c];
  }

  function SectionText(ll: bool, section: string): string {
    (if ll then "\n" else "") + ("[" + (section + ("]" + "\n")))
  }

  function KeyText(key: string): string {
    key + "="
  }

  /** What goes between the kept front and the kept rest of the text. */
  function Middle(ll: bool, sl: bool, kl: bool, section: string, key: string, value: string): string {
    (if kl && sl then SectionText(ll, section) else "") + ((if kl then KeyText(key) else "") + (value + "\n"))
  }

  method AppSection(dst: array<char>, pos: nat, ll: bool, section: string) returns (end: nat)
    requires pos + |SectionText(ll, section)| <= dst.Length
    modifies dst
    ensures end == pos + |SectionText(ll, section)| && dst[..end] == old(dst[..pos]) + SectionText(ll, section)
  {
    end := pos;
    ghost var front := dst[..pos];
    assert front + "" == front;
    if ll {
      end := AppByte(dst, end, '\n');
    }
    ghost var nl := if ll then "\n" else "";
    assert dst[..end] == front + nl;
    end := AppByte(dst, end, '[');
    end := AppArr(dst, end, section, 0, |section|);
    assert section[0..|section|] == section;
    assert dst[..end] == (front + nl) + ("[" + section);
    end := AppByte(dst, end, ']');
    end := AppByte(dst, end, '\n');
    assert dst[..end] == (front + nl) + ("[" + (section + ("]" + "\n")));
  }

  method AppKey(dst: array<char>, pos: nat, key: string) returns (end: nat)
    requires pos + |KeyText(key)| <= dst.Length
    modifies dst
    ensures end == pos + |KeyText(key)| && dst[..end] == old(dst[..pos]) + KeyText(key)
  {
    end := AppArr(dst, pos, key, 0, |key|);
    assert key[0..|key|] == key;
    end := AppByte(dst, end, '=');
  }

  method AppValue(dst: array<char>, pos: nat, value: string) returns (end: nat)
    requires pos + |value| + 1 <= dst.Length
    modifies dst
    ensures end == pos + |value| + 1 && dst[..end] == old(dst[..pos]) + (value + "\n")
  {
    end := AppArr(dst, pos, value, 0, |value|);
    assert value[0..|value|] == value;
    end := AppByte(dst, end, '\n');
  }

  /** The part between the kept pieces, in order. */
  method AppMiddle(dst: array<char>, pos: nat, ll: bool, sl: bool, kl: bool,
                   section: string, key: string, value: string)
    returns (end: nat)
    requires pos + |Middle(ll, sl, kl, section, key, value)| <= dst.Length
    modifies dst
    ensures end == pos + |Middle(ll, sl, kl, section, key, value)|
    ensures dst[..end] == old(dst[..pos]) + Middle(ll, sl, kl, section, key, value)
  {
    ghost var front := dst[..pos];
    ghost var s1 := if kl && sl then SectionText(ll, section) else "";
    ghost var s2 := if kl then KeyText(key) else "";
    end := pos;
    if kl {
      if sl {
        end := AppSection(dst, end, ll, section);
      }
      assert dst[..end] == front + s1;
      end := AppKey(dst, end, key);
    }
    assert dst[..end] == front + s1 + s2;
    end := AppValue(dst, end, value);
    Regroup(front, s1, s2, value + "\n");
  }

  lemma Regroup(a: string, b: string, c: string, d: string)
    ensures a + b + c + d == a + (b + (c + d))
  {}

  /** The new buffer, given where to cut the text and what to put in. */
  method Build(a: seq<char>, cb: nat, ce: nat, len: nat, ll: bool, sl: bool, kl: bool,
               section: string, key: string, value: string)
    returns (ndata: array<char>)
    requires cb <= ce <= len <= |a|
    ensures fresh(ndata)
    ensures ndata[..] == a[..cb] + Middle(ll, sl, kl, section, key, value) + a[ce..len] + "\0"
  {
    var nlen := len - (ce - cb) + (if sl && kl && ll then 1 else 0) + (if sl && kl then |section| + 3 else 0)
                + (if kl then |key| + 1 else 0) + |value| + 1;
    assert nlen == cb + |Middle(ll, sl, kl, section, key, value)| + (len - ce);
    ndata := new char[nlen + 1];
    var p := AppArr(ndata, 0, a, 0, cb);
    assert ndata[..p] == a[..cb];
    p := AppMiddle(ndata, p, ll, sl, kl, section, key, value);
    p := AppArr(ndata, p, a, ce, len - ce);
    assert ce + (len - ce) == len;
    p := AppByte(ndata, p, '\0');
    assert p == nlen + 1 && ndata[..] == ndata[..p];
  }

  /** Without data there is nothing to read, and everything to write is new. */
  function DataLines(data: Option<seq<char>>): seq<string>
    requires data.Some? ==> |data.value| > 0
  {
    if data.None? then [] else Lines(Text(data.value))
  }

  ghost predicate GoodData(data: Option<seq<char>>) {
    data.Some? ==> IsCString(data.value) && Terminated(Text(data.value))
  }

  /** iniEntry without a value: the entry, if there is one. */
  method Read(data: Option<seq<char>>, section: string, key: string) returns (r: Option<string>)
    requires GoodData(data)
    requires NoNewline(section) && NoNul(section) && NoNewline(key) && NoNul(key)
    ensures r == Get(DataLines(data), section, key)
  {
    if data.None? { return None; }
    var a := data.value;
    ghost var ls := Lines(Text(a));
    JoinLines(Text(a));
    var hit, cb, ce, secinsert, pastinsert, i := Scan(a, ls, section, key);
    if !hit { return None; }
    LineOf(a, ls, i);
    ce := ce - 1;
    ghost var raw := ls[i][ValueAt(ls[i], key)..];
    assert a[cb..ce] == raw;
    ce := TrimBack(a, cb, ce);
    r := Some(a[cb..ce]);
  }

  lemma TrimStep(raw: string, n: nat)
    requires 0 < n <= |raw| && Blank(raw[n-1])
    ensures TrimEnd(raw[..n]) == TrimEnd(raw[..n-1])
  {
    assert raw[..n][..n-1] == raw[..n-1];
  }

  /** The reader's last loop: back over trailing blanks. */
  method TrimBack(a: seq<char>, cb: nat, end: nat) returns (ce: nat)
    requires cb <= end <= |a|
    ensures cb <= ce <= end && a[cb..ce] == TrimEnd(a[cb..end])
  {
    hide TrimEnd;
    ce := end;
    ghost var raw := a[cb..end];
    assert raw[..end-cb] == raw;
    while ce != cb && (a[ce-1] == ' ' || a[ce-1] == '\t')
      invariant cb <= ce <= end && TrimEnd(raw[..ce-cb]) == TrimEnd(raw)
      decreases ce
    {
      TrimStep(raw, ce - cb);
      ce := ce - 1;
    }
    assert raw[..ce-cb] == a[cb..ce];
  }

  /** Where to cut the text, and which parts to put in, for a missing entry. */
  method Place(ghost ls: seq<string>, section: string, key: string, ghost value: string,
               secinsert: Option<nat>, pastinsert: Option<nat>)
    returns (cb: nat, ll: bool, sl: bool)
    requires FindEntry(ls, 0, section, key).None?
    requires secinsert == InsertAt(ls, LastOfSection(ls, |ls|, section))
    requires pastinsert == InsertAt(ls, LastOutside(ls, |ls|, section))
    ensures cb <= |Join(ls)|
    ensures var t := Join(ls);
      Join(Put(ls, section, key, value)) == t[..cb] + Middle(ll, sl, true, section, key, value) + t[cb..]
  {
    ghost var (n, mid) := Slot(ls, section, key, value);
    ll, sl := false, secinsert.None?;
    if secinsert.Some? {
      cb := secinsert.value;
    } else if pastinsert.Some? {
      cb, ll := pastinsert.value, true;
    } else {
      cb := 0;
    }
    TextOfInsert(ls, n, mid);
    SlotText(ls, section, key, value, ll, sl);
  }

  /** Where to cut the text and what to put in, for a present or a missing entry. */
  method Locate(a: seq<char>, ghost ls: seq<string>, section: string, key: string, ghost value: string)
    returns (cb: nat, ce: nat, len: nat, ll: bool, sl: bool, kl: bool)
    requires IsCString(a) && CleanLines(ls) && Join(ls) == Text(a)
    requires NoNewline(section) && NoNul(section) && NoNewline(key) && NoNul(key)
    ensures cb <= ce <= len == |a| - 1
    ensures Join(Put(ls, section, key, value)) ==
            a[..cb] + Middle(ll, sl, kl, section, key, value) + a[ce..len]
  {
    var hit, secinsert, pastinsert;
    ghost var i, t := 0, Join(ls);
    hide FindEntry, Reads, IsEntry, InSect, Join, TrimEnd;
    hit, cb, ce, secinsert, pastinsert, i := Scan(a, ls, section, key);
    len, ll, sl, kl := |a| - 1, false, false, false;
    if hit {
      TextOfOverwrite(ls, i, ValueAt(ls[i], key), value);
    } else {
      cb, ll, sl := Place(ls, section, key, value, secinsert, pastinsert);
      ce, kl := cb, true;
    }
    assert t[..cb] == a[..cb] && t[ce..] == a[ce..len];
  }

  /** iniEntry with a value: the edited text, in a new buffer that it fills exactly. */
  method Write(data: Option<seq<char>>, section: string, key: string, value: string) returns (ndata: array<char>)
    requires GoodData(data)
    requires NoNewline(section) && NoNul(section) && NoNewline(key) && NoNul(key)
    ensures fresh(ndata) && ndata[..] == Join(Put(DataLines(data), section, key, value)) + "\0"
  {
    if data.None? {
      var cb, ll, sl := Place([], section, key, value, None, None);
      assert cb == 0;
      ndata := Build([], 0, 0, 0, ll, sl, true, section, key, value);
    } else {
      var a := data.value;
      JoinLines(Text(a));
      var cb, ce, len, ll, sl, kl := Locate(a, Lines(Text(a)), section, key, value);
      ndata := Build(a, cb, ce, len, ll, sl, kl, section, key, value);
    }
  }

  lemma SlotText(ls: seq<string>, s: string, k: string, v: string, ll: bool, sl: bool)
    requires FindEntry(ls, 0, s, k).None?
    requires sl <==> LastOfSection(ls, |ls|, s).None?
    requires ll <==> sl && LastOutside(ls, |ls|, s).Some?
    ensures Join(Slot(ls, s, k, v).1) == Middle(ll, sl, true, s, k, v)
  {
    var x, h := EntryLine(k, v), HeaderLine(s);
    var tail := x + ("\n" + Join([]));
    JoinCons(x, []);
    JoinCons(h, [x]);
    JoinCons("", [h, x]);
    assert [x] + [] == [x] && [h] + [x] == [h, x] && [""] + [h, x] == ["", h, x];
    assert Join([x]) == tail && tail == KeyText(k) + (v + "\n");
    assert h + ("\n" + tail) == SectionText(false, s) + tail;
    assert "" + ("\n" + (h + ("\n" + tail))) == SectionText(true, s) + tail;
  }
}
