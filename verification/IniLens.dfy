/**
 * Reading and writing entries of an ini file are a lens: what is written is read
 * back, nothing else changes, and the last write wins, byte for byte.
 */
module IniLens {
  import opened Wrappers
  import opened IniLines

  /** A key that cannot be mistaken for a header and whose line starts with it. */
  predicate PlainKey(k: string) {
    k == "" || (!Blank(k[0]) && k[0] != '[')
  }

  /** A key that no other key can be mistaken for. */
  predicate ValidKey(k: string) {
    && '=' !in k && '\n' !in k
    && PlainKey(k) && (k == "" || !Blank(k[|k|-1]))
  }

  /** A section name that no other section name can be mistaken for. */
  predicate ValidSection(s: string) {
    ']' !in s && '\n' !in s
  }

  // ----- Strings -----

  lemma BlankEndIs(s: string, i: nat, e: nat)
    requires i <= e <= |s| && (e < |s| ==> !Blank(s[e])) && forall j :: i <= j < e ==> Blank(s[j])
    ensures BlankEnd(s, i) == e
  {
    var f := BlankEnd(s, i);
    assert f < e || e < f || f == e;
  }

  lemma BlanksAfter(front: string, v: string, i: nat)
    requires i <= |front| && forall j :: i <= j < |front| ==> Blank(front[j])
    ensures BlankEnd(front + v, i) == |front| + LeadingBlanks(v)
  {
    var s, n := front + v, LeadingBlanks(v);
    forall j | i <= j < |front| + n ensures Blank(s[j]) {
      if |front| <= j { assert s[j] == v[j - |front|]; }
    }
    BlankEndIs(s, i, |front| + n);
  }

  // ----- Lines -----

  /** How an entry is laid out: blanks, key, blanks, '=', blanks, value. */
  predicate LaidOut(line: string, key: string, a0: nat, eq: nat, e: nat) {
    && a0 + |key| <= eq < e <= |line|
    && Reads(line, a0, key) && line[eq] == '='
    && line[a0] != '[' && !Blank(line[a0])
    && (forall i :: 0 <= i < a0 ==> Blank(line[i]))
    && (forall i :: a0 + |key| <= i < eq ==> Blank(line[i]))
    && (forall i :: eq < i < e ==> Blank(line[i]))
  }

  lemma EntryIsLaidOut(line: string, key: string)
    requires IsEntry(line, key)
    ensures LaidOut(line, key, LeadingBlanks(line), EqualsAt(line, key), ValueAt(line, key))
  {}

  lemma LaidOutIsEntry(line: string, key: string, a0: nat, eq: nat, e: nat)
    requires LaidOut(line, key, a0, eq, e)
    ensures IsEntry(line, key) && LeadingBlanks(line) == a0 && EqualsAt(line, key) == eq
    ensures ValueAt(line, key) == BlankEnd(line, e)
  {
    BlankEndIs(line, 0, a0);
    BlankEndIs(line, a0 + |key|, eq);
    BlankEndIs(line, eq + 1, BlankEnd(line, e));
  }

  /** Overwriting the value keeps the line an entry for the key; the value starts after its own blanks. */
  lemma OverwrittenLine(line: string, key: string, v: string)
    requires IsEntry(line, key)
    ensures var line' := line[..ValueAt(line, key)] + v;
      && IsEntry(line', key) && ValueAt(line', key) == ValueAt(line, key) + LeadingBlanks(v)
  {
    var a0, eq, e := LeadingBlanks(line), EqualsAt(line, key), ValueAt(line, key);
    var line' := line[..e] + v;
    EntryIsLaidOut(line, key);
    forall i | 0 <= i < e ensures line'[i] == line[i] {}
    LaidOutIsEntry(line', key, a0, eq, e);
    BlanksAfter(line[..e], v, e);
  }

  lemma NewEntry(key: string, v: string)
    requires PlainKey(key)
    ensures IsEntry(EntryLine(key, v), key)
    ensures ValueAt(EntryLine(key, v), key) == |key| + 1 + LeadingBlanks(v)
  {
    var line := EntryLine(key, v);
    LaidOutIsEntry(line, key, 0, |key|, |key| + 1);
    BlanksAfter(key + "=", v, |key| + 1);
  }

  lemma NewHeader(section: string)
    ensures IsHeader(HeaderLine(section), section)
  {
    BlankEndIs(HeaderLine(section), 0, 0);
  }

  /** The key holds no '=', so its '=' is the first of the line. */
  lemma EqualsIsFirst(line: string, k: string)
    requires IsEntry(line, k) && '=' !in k
    ensures forall i :: 0 <= i < EqualsAt(line, k) ==> line[i] != '='
  {
    var a0 := LeadingBlanks(line);
    EntryIsLaidOut(line, k);
    forall i | a0 <= i < a0 + |k| ensures line[i] != '=' { assert line[a0 + (i - a0)] == k[i - a0]; }
  }

  lemma EntryOfOneKey(line: string, k: string, k': string)
    requires IsEntry(line, k) && IsEntry(line, k') && ValidKey(k) && ValidKey(k')
    ensures k == k'
  {
    var a0, eq, eq' := LeadingBlanks(line), EqualsAt(line, k), EqualsAt(line, k');
    EqualsIsFirst(line, k);
    EqualsIsFirst(line, k');
    assert eq < eq' || eq' < eq || eq == eq';
    EntryNotLonger(line, k, k');
    EntryNotLonger(line, k', k);
    assert k == line[a0..a0+|k|] && k' == line[a0..a0+|k|];
  }

  lemma EntryNotLonger(line: string, k: string, k': string)
    requires IsEntry(line, k) && IsEntry(line, k') && EqualsAt(line, k) == EqualsAt(line, k')
    requires ValidKey(k')
    ensures |k'| <= |k|
  {
    var a0 := LeadingBlanks(line);
    EntryIsLaidOut(line, k);
    EntryIsLaidOut(line, k');
    if |k'| > 0 { assert k'[|k'|-1] == line[a0 + (|k'| - 1)]; }
  }

  lemma ReadsAt(line: string, c: nat, s: string, i: nat)
    requires Reads(line, c, s) && i < |s|
    ensures line[c + i] == s[i] && s[i] in s
  {}

  lemma BracketNotPassed(line: string, c: nat, s: string, s': string)
    requires Reads(line, c, s) && c + |s| < |line| && line[c + |s|] == ']' && Reads(line, c, s') && ']' !in s'
    ensures |s'| <= |s|
  {
    if |s| < |s'| { ReadsAt(line, c, s', |s|); }
  }

  lemma HeaderOfOneSection(line: string, s: string, s': string)
    requires IsHeader(line, s) && IsHeader(line, s') && ValidSection(s) && ValidSection(s')
    ensures s == s'
  {
    var c := LeadingBlanks(line) + 1;
    BracketNotPassed(line, c, s, s');
    BracketNotPassed(line, c, s', s);
    assert s == line[c..c+|s|] && s' == line[c..c+|s|];
  }

  // ----- Sections -----

  lemma {:induction false} InOneSection(ls: seq<string>, i: nat, s: string, s': string)
    requires i <= |ls| && InSect(ls, i, s) && InSect(ls, i, s') && ValidSection(s) && ValidSection(s')
    ensures s == s'
  {
    if AnyHeader(ls[i-1]) { HeaderOfOneSection(ls[i-1], s, s'); } else { InOneSection(ls, i - 1, s, s'); }
  }

  /** Only headers matter for what section a line is in. */
  lemma {:induction false} InSectAlike(ls: seq<string>, ls': seq<string>, i: nat, s: string)
    requires i <= |ls| && i <= |ls'|
    requires forall j :: 0 <= j < i ==> ls'[j] == ls[j] || (!AnyHeader(ls[j]) && !AnyHeader(ls'[j]))
    ensures InSect(ls', i, s) <==> InSect(ls, i, s)
  {
    if i > 0 { InSectAlike(ls, ls', i - 1, s); }
  }

  lemma {:induction false} InSectShifted(ls: seq<string>, n: nat, mid: seq<string>, i: nat, s: string)
    requires n <= i <= |ls|
    requires InSect(Insert(ls, n, mid), n + |mid|, s) <==> InSect(ls, n, s)
    ensures InSect(Insert(ls, n, mid), i + |mid|, s) <==> InSect(ls, i, s)
  {
    if i > n {
      InSectShifted(ls, n, mid, i - 1, s);
      assert Insert(ls, n, mid)[i + |mid| - 1] == ls[i-1];
    }
  }

  lemma FoundFirst(ls: seq<string>, i: nat, s: string, k: string)
    requires i < |ls| && Visible(ls, i, s, k) && forall j :: 0 <= j < i ==> !Visible(ls, j, s, k)
    ensures FindEntry(ls, 0, s, k) == Some(i) && Get(ls, s, k) == Some(ValueOf(ls[i], k))
  {
    var r := FindEntry(ls, 0, s, k);
    assert r.Some?;
    assert r.value < i || i < r.value || r.value == i;
  }

  lemma NoneFound(ls: seq<string>, s: string, k: string)
    requires forall j :: 0 <= j < |ls| ==> !Visible(ls, j, s, k)
    ensures Get(ls, s, k).None?
  {}

  // ----- Inserting lines -----

  /** What is visible in the lines above and below inserted ones. */
  lemma VisibleAround(ls: seq<string>, n: nat, mid: seq<string>, s: string, k: string)
    requires n <= |ls|
    requires (InSect(Insert(ls, n, mid), n + |mid|, s) <==> InSect(ls, n, s)) ||
             forall i :: n <= i < |ls| ==> BlankLine(ls[i])
    ensures var ls' := Insert(ls, n, mid);
      && (forall i :: 0 <= i < n ==> ls'[i] == ls[i] && (Visible(ls', i, s, k) <==> Visible(ls, i, s, k)))
      && (forall i :: n <= i < |ls| ==>
            ls'[i + |mid|] == ls[i] && (Visible(ls', i + |mid|, s, k) <==> Visible(ls, i, s, k)))
  {
    var ls' := Insert(ls, n, mid);
    forall i | 0 <= i < n ensures Visible(ls', i, s, k) <==> Visible(ls, i, s, k) {
      InSectAlike(ls, ls', i, s);
    }
    forall i | n <= i < |ls| ensures Visible(ls', i + |mid|, s, k) <==> Visible(ls, i, s, k) {
      if !BlankLine(ls[i]) { InSectShifted(ls, n, mid, i, s); }
    }
  }

  /** Inserted lines that show nothing to a reader leave his view as it was. */
  lemma InsertUnseen(ls: seq<string>, n: nat, mid: seq<string>, s: string, k: string)
    requires n <= |ls|
    requires (InSect(Insert(ls, n, mid), n + |mid|, s) <==> InSect(ls, n, s)) ||
             forall i :: n <= i < |ls| ==> BlankLine(ls[i])
    requires forall i :: n <= i < n + |mid| ==> !Visible(Insert(ls, n, mid), i, s, k)
    ensures Get(Insert(ls, n, mid), s, k) == Get(ls, s, k)
  {
    hide Visible;
    var ls' := Insert(ls, n, mid);
    VisibleAround(ls, n, mid, s, k);
    var r := FindEntry(ls, 0, s, k);
    if r.Some? {
      FoundFirst(ls', if r.value < n then r.value else r.value + |mid|, s, k) by {
        forall j | 0 <= j < (if r.value < n then r.value else r.value + |mid|) ensures !Visible(ls', j, s, k) {
          if n + |mid| <= j { assert !Visible(ls, j - |mid|, s, k); }
        }
      }
    } else {
      forall j | 0 <= j < |ls'| ensures !Visible(ls', j, s, k) {
        if n + |mid| <= j { assert !Visible(ls, j - |mid|, s, k); }
      }
    }
  }

  /** Where a missing entry goes, and the lines that go there. */
  function Slot(ls: seq<string>, s: string, k: string, v: string): (r: (nat, seq<string>))
    requires FindEntry(ls, 0, s, k).None?
    ensures r.0 <= |ls| && |r.1| > 0 && Put(ls, s, k, v) == Insert(ls, r.0, r.1)
    ensures r.1[|r.1|-1] == EntryLine(k, v)
  {
    var j := LastOfSection(ls, |ls|, s);
    if j.Some? then (j.value + 1, [EntryLine(k, v)])
    else
      var j := LastOutside(ls, |ls|, s);
      if j.Some? then (j.value + 1, ["", HeaderLine(s), EntryLine(k, v)])
      else (0, [HeaderLine(s), EntryLine(k, v)])
  }

  /** The section has a line that is not blank, its header included. */
  predicate HasSection(ls: seq<string>, s: string) {
    exists j :: 0 <= j < |ls| && !BlankLine(ls[j]) && InSect(ls, j + 1, s)
  }

  predicate HasText(ls: seq<string>) {
    exists j :: 0 <= j < |ls| && !BlankLine(ls[j])
  }

  /** What is put in for an entry that is missing. */
  function NewLines(ls: seq<string>, s: string, k: string, v: string): seq<string> {
    if HasSection(ls, s) then [EntryLine(k, v)]
    else if HasText(ls) then ["", HeaderLine(s), EntryLine(k, v)]
    else [HeaderLine(s), EntryLine(k, v)]
  }

  /** Right behind the last line of its section, or else behind everything. */
  ghost predicate Place(ls: seq<string>, s: string, n: nat) {
    && n <= |ls| && (n > 0 ==> !BlankLine(ls[n-1]))
    && (HasSection(ls, s) ==> n > 0 && InSect(ls, n, s))
    && forall j :: n <= j < |ls| ==> BlankLine(ls[j]) || (HasSection(ls, s) && !InSect(ls, j + 1, s))
  }

  /** There is no other such place. */
  lemma OnePlace(ls: seq<string>, s: string, m: nat, n: nat)
    requires Place(ls, s, m) && Place(ls, s, n)
    ensures m == n
  {
    NotBehind(ls, s, m, n);
    NotBehind(ls, s, n, m);
  }

  lemma NotBehind(ls: seq<string>, s: string, m: nat, n: nat)
    requires Place(ls, s, m) && Place(ls, s, n)
    ensures n <= m
  {
    if m < n { BehindIsNothing(ls, s, m, n); }
  }

  lemma BehindIsNothing(ls: seq<string>, s: string, m: nat, n: nat)
    requires Place(ls, s, m) && m < n <= |ls|
    ensures BlankLine(ls[n-1]) || (HasSection(ls, s) && !InSect(ls, n, s))
  {
    assert n - 1 + 1 == n;
  }

  /**
   * A new entry goes behind the last line of its section; a new section, with a blank
   * line before it if anything precedes it, goes behind the last line of all. All lines
   * stay as they are.
   */
  lemma PutPlaces(ls: seq<string>, s: string, k: string, v: string) returns (n: nat)
    requires FindEntry(ls, 0, s, k).None?
    ensures Place(ls, s, n) && Put(ls, s, k, v) == Insert(ls, n, NewLines(ls, s, k, v))
  {
    var (m, mid) := Slot(ls, s, k, v);
    n := m;
    hide BlankLine, InSect, FindEntry, Insert;
    var j, o := LastOfSection(ls, |ls|, s), LastOutside(ls, |ls|, s);
    if j.Some? {
      assert HasSection(ls, s);
    } else {
      assert !HasSection(ls, s);
      assert HasText(ls) <==> o.Some?;
    }
    assert mid == NewLines(ls, s, k, v);
  }

  lemma InsertKeeps(ls: seq<string>, n: nat, mid: seq<string>, p: string -> bool)
    requires n <= |ls| && (forall i :: 0 <= i < |ls| ==> p(ls[i])) && forall i :: 0 <= i < |mid| ==> p(mid[i])
    ensures var ls' := Insert(ls, n, mid); forall i :: 0 <= i < |ls'| ==> p(ls'[i])
  {}

  /** What holds of every line of the file and of every line written holds afterwards. */
  lemma PutKeeps(ls: seq<string>, s: string, k: string, v: string, p: string -> bool)
    requires (forall i :: 0 <= i < |ls| ==> p(ls[i])) && p("") && p(HeaderLine(s)) && p(EntryLine(k, v))
    requires var r := FindEntry(ls, 0, s, k); r.Some? ==> p(ls[r.value][..ValueAt(ls[r.value], k)] + v)
    ensures var ls' := Put(ls, s, k, v); forall i :: 0 <= i < |ls'| ==> p(ls'[i])
  {
    hide IsEntry, InSect, FindEntry;
    if FindEntry(ls, 0, s, k).None? {
      var (n, mid) := Slot(ls, s, k, v);
      InsertKeeps(ls, n, mid, p);
    }
  }

  lemma NextInSect(ls: seq<string>, i: nat, s: string)
    requires i < |ls|
    ensures InSect(ls, i + 1, s) <==> if AnyHeader(ls[i]) then IsHeader(ls[i], s) else InSect(ls, i, s)
  {}

  lemma BlankBelow(ls: seq<string>, s: string)
    requires LastOfSection(ls, |ls|, s).None?
    ensures var j := LastOutside(ls, |ls|, s);
      forall i :: (if j.Some? then j.value + 1 else 0) <= i < |ls| ==> BlankLine(ls[i])
  {}

  /** A new section is added only if there is none, and nothing but blank lines comes after it. */
  lemma SlotPlace(ls: seq<string>, s: string, k: string, v: string)
    requires FindEntry(ls, 0, s, k).None?
    ensures var (n, mid) := Slot(ls, s, k, v);
      if |mid| == 1 then InSect(ls, n, s)
      else
        && 2 <= |mid| <= 3 && mid[|mid|-2] == HeaderLine(s) && (|mid| == 3 ==> mid[0] == "")
        && (forall i :: n <= i < |ls| ==> BlankLine(ls[i]))
        && forall i :: 0 <= i < |ls| ==> BlankLine(ls[i]) || !InSect(ls, i + 1, s)
  {
    hide InSect, IsEntry, FindEntry, BlankLine;
    if LastOfSection(ls, |ls|, s).None? { BlankBelow(ls, s); }
  }

  /** The new entry is in its section, and the lines added above it hold no entry. */
  lemma SlotShape(ls: seq<string>, s: string, k: string, v: string)
    requires FindEntry(ls, 0, s, k).None? && PlainKey(k)
    ensures var (n, mid) := Slot(ls, s, k, v); var ls' := Insert(ls, n, mid);
      && InSect(ls', n + |mid| - 1, s)
      && InSect(ls', n + |mid|, s)
      && (forall i :: n <= i < n + |mid| - 1 ==> BlankLine(ls'[i]) || AnyHeader(ls'[i]))
  {
    var (n, mid) := Slot(ls, s, k, v);
    var ls' := Insert(ls, n, mid);
    SlotPlace(ls, s, k, v);
    NewEntry(k, v);
    NewHeader(s);
    hide InSect, Slot, Put, FindEntry, IsEntry;
    assert ls'[n + |mid| - 1] == mid[|mid|-1];
    if |mid| == 1 {
      InSectAlike(ls, ls', n, s);
    } else {
      assert ls'[n + |mid| - 2] == mid[|mid|-2] && (|mid| == 3 ==> ls'[n] == mid[0]);
      NextInSect(ls', n + |mid| - 2, s);
    }
    assert !AnyHeader(ls'[n + |mid| - 1]) by { EntryNoHeader(ls'[n + |mid| - 1], k); }
    NextInSect(ls', n + |mid| - 1, s);
  }

  lemma EntryNoHeader(line: string, k: string)
    requires IsEntry(line, k)
    ensures !AnyHeader(line) && !BlankLine(line)
  {}

  /** Of the added lines, only the last can be an entry. */
  lemma SlotUnseen(ls: seq<string>, s: string, k: string, v: string, s': string, k': string)
    requires FindEntry(ls, 0, s, k).None? && ValidKey(k) && ValidKey(k') && ValidSection(s) && ValidSection(s')
    requires (s', k') != (s, k)
    ensures var (n, mid) := Slot(ls, s, k, v);
      forall i :: n <= i < n + |mid| ==> !Visible(Insert(ls, n, mid), i, s', k')
  {
    var (n, mid) := Slot(ls, s, k, v);
    var ls' := Insert(ls, n, mid);
    SlotShape(ls, s, k, v);
    NewEntry(k, v);
    var last := n + |mid| - 1;
    hide InSect, Slot, Put, FindEntry, ValidKey, ValidSection;
    assert ls'[last] == mid[|mid|-1];
    if Visible(ls', last, s', k') {
      InOneSection(ls', last, s, s');
      EntryOfOneKey(ls'[last], k, k');
    }
    forall i | n <= i < last ensures !IsEntry(ls'[i], k') {}
  }

  // ----- The laws, on lines -----

  lemma OverwriteVisible(ls: seq<string>, i: nat, line: string, s: string, k: string)
    requires i < |ls| && IsEntry(ls[i], k) && IsEntry(line, k)
    ensures forall j :: 0 <= j < |ls| ==> (Visible(ls[i := line], j, s, k) <==> Visible(ls, j, s, k))
  {
    forall j | 0 <= j < |ls| ensures InSect(ls[i := line], j, s) <==> InSect(ls, j, s) {
      InSectAlike(ls, ls[i := line], j, s);
    }
  }

  lemma StillFound(ls: seq<string>, i: nat, line: string, s: string, k: string)
    requires FindEntry(ls, 0, s, k) == Some(i) && IsEntry(line, k)
    ensures FindEntry(ls[i := line], 0, s, k) == Some(i)
  {
    var ls' := ls[i := line];
    OverwriteVisible(ls, i, line, s, k);
    assert Visible(ls, i, s, k);
    forall j | 0 <= j < i ensures !Visible(ls', j, s, k) { assert !Visible(ls, j, s, k); }
    FoundFirst(ls', i, s, k);
  }

  /** After overwriting, the same line is the first visible one. */
  lemma OverwriteFound(ls: seq<string>, s: string, k: string, v: string)
    requires FindEntry(ls, 0, s, k).Some?
    ensures var i := FindEntry(ls, 0, s, k).value; var ls' := Put(ls, s, k, v);
      && FindEntry(ls', 0, s, k) == Some(i)
      && ls'[i] == ls[i][..ValueAt(ls[i], k)] + v
      && ValueAt(ls'[i], k) == ValueAt(ls[i], k) + LeadingBlanks(v)
  {
    var i := FindEntry(ls, 0, s, k).value;
    OverwrittenLine(ls[i], k, v);
    StillFound(ls, i, ls[i][..ValueAt(ls[i], k)] + v, s, k);
  }

  /** After inserting, the new line is the first visible one. */
  lemma InsertFound(ls: seq<string>, s: string, k: string, v: string)
    requires FindEntry(ls, 0, s, k).None? && PlainKey(k)
    ensures var (n, mid) := Slot(ls, s, k, v); var i := n + |mid| - 1; var ls' := Put(ls, s, k, v);
      && FindEntry(ls', 0, s, k) == Some(i) && ls'[i] == EntryLine(k, v)
      && ValueAt(ls'[i], k) == |k| + 1 + LeadingBlanks(v)
  {
    var ls' := Put(ls, s, k, v);
    var (n, mid) := Slot(ls, s, k, v);
    var i := n + |mid| - 1;
    SlotPlace(ls, s, k, v);
    SlotShape(ls, s, k, v);
    NewEntry(k, v);
    assert ls'[i] == EntryLine(k, v);
    forall j | 0 <= j < i ensures !Visible(ls', j, s, k) {
      if j < n {
        assert !Visible(ls, j, s, k);
        InSectAlike(ls, ls', j, s);
      }
    }
    FoundFirst(ls', i, s, k);
  }

  /** What is written is read back, trimmed. */
  lemma PutThenGet(ls: seq<string>, s: string, k: string, v: string)
    requires PlainKey(k)
    ensures Get(Put(ls, s, k, v), s, k) == Some(Trim(v))
  {
    if FindEntry(ls, 0, s, k).Some? {
      OverwriteFound(ls, s, k, v);
      var i := FindEntry(ls, 0, s, k).value;
      ValueOfWritten(ls[i][..ValueAt(ls[i], k)], k, v);
    } else {
      InsertFound(ls, s, k, v);
      ValueOfWritten(k + "=", k, v);
    }
  }

  lemma ValueOfWritten(front: string, k: string, v: string)
    requires IsEntry(front + v, k) && ValueAt(front + v, k) == |front| + LeadingBlanks(v)
    ensures ValueOf(front + v, k) == Trim(v)
  {
    assert (front + v)[|front| + LeadingBlanks(v)..] == v[LeadingBlanks(v)..];
  }

  /** Every other entry reads as before. */
  lemma PutKeepsOthers(ls: seq<string>, s: string, k: string, v: string, s': string, k': string)
    requires ValidKey(k) && ValidKey(k') && ValidSection(s) && ValidSection(s')
    requires (s', k') != (s, k)
    ensures Get(Put(ls, s, k, v), s', k') == Get(ls, s', k')
  {
    var r := FindEntry(ls, 0, s, k);
    if r.Some? {
      OverwriteKeepsOthers(ls, r.value, s, k, v, s', k');
    } else {
      var (n, mid) := Slot(ls, s, k, v);
      var ls' := Insert(ls, n, mid);
      SlotPlace(ls, s, k, v);
      SlotShape(ls, s, k, v);
      SlotUnseen(ls, s, k, v, s', k');
      if |mid| == 1 {
        InSectAlike(ls, ls', n, s');
        NewEntry(k, v);
        assert ls'[n] == EntryLine(k, v);
        assert InSect(ls', n + 1, s') <==> InSect(ls, n, s');
      }
      InsertUnseen(ls, n, mid, s', k');
    }
  }

  lemma OverwriteKeepsOthers(ls: seq<string>, i: nat, s: string, k: string, v: string, s': string, k': string)
    requires i < |ls| && Visible(ls, i, s, k)
    requires ValidKey(k) && ValidKey(k') && ValidSection(s) && ValidSection(s') && (s', k') != (s, k)
    ensures Get(ls[i := ls[i][..ValueAt(ls[i], k)] + v], s', k') == Get(ls, s', k')
  {
    var ls' := ls[i := ls[i][..ValueAt(ls[i], k)] + v];
    OverwrittenLine(ls[i], k, v);
    forall j | 0 <= j < |ls| ensures Visible(ls', j, s', k') <==> Visible(ls, j, s', k') {
      InSectAlike(ls, ls', j, s');
      if j == i && InSect(ls, i, s') {
        InOneSection(ls, i, s, s');
        if IsEntry(ls'[i], k') { EntryOfOneKey(ls'[i], k, k'); }
        if IsEntry(ls[i], k') { EntryOfOneKey(ls[i], k, k'); }
      }
    }
    var r := FindEntry(ls, 0, s', k');
    if r.Some? {
      assert r.value != i by {
        if r.value == i { InOneSection(ls, i, s, s'); EntryOfOneKey(ls[i], k, k'); }
      }
      FoundFirst(ls', r.value, s', k');
    } else {
      NoneFound(ls', s', k');
    }
  }

  /**
   * Writing twice is writing the second value, byte for byte - exactly if the
   * first value has no leading blank. Otherwise its blanks stay in the file.
   */
  lemma PutTwiceExactly(ls: seq<string>, s: string, k: string, v1: string, v2: string)
    requires PlainKey(k)
    ensures Put(Put(ls, s, k, v1), s, k, v2) == Put(ls, s, k, v2) <==> LeadingBlanks(v1) == 0
  {
    if FindEntry(ls, 0, s, k).Some? {
      OverwrittenTwice(ls, s, k, v1, v2);
    } else {
      InsertedTwice(ls, s, k, v1, v2);
    }
  }

  lemma OverwrittenTwice(ls: seq<string>, s: string, k: string, v1: string, v2: string)
    requires FindEntry(ls, 0, s, k).Some?
    ensures Put(Put(ls, s, k, v1), s, k, v2) == Put(ls, s, k, v2) <==> LeadingBlanks(v1) == 0
  {
    hide Put, IsEntry, InSect, TrimEnd;
    var i := FindEntry(ls, 0, s, k).value;
    var e := ValueAt(ls[i], k);
    var front := ls[i][..e];
    var last := (front + v1)[..e + LeadingBlanks(v1)] + v2;
    OverwriteFound(ls, s, k, v1);
    PutOver(ls, s, k, v1, i, e);
    PutOver(ls, s, k, v2, i, e);
    PutOver(Put(ls, s, k, v1), s, k, v2, i, e + LeadingBlanks(v1));
    OverwriteTwice(front, v1, v2);
    OneLineTwice(ls, i, front + v1, last);
    OneLineDiffers(ls, i, last, front + v2);
  }

  lemma OneLineTwice(ls: seq<string>, i: nat, a: string, b: string)
    requires i < |ls|
    ensures ls[i := a][i := b] == ls[i := b]
  {}

  lemma PutOver(ls: seq<string>, s: string, k: string, v: string, i: nat, e: nat)
    requires FindEntry(ls, 0, s, k) == Some(i) && ValueAt(ls[i], k) == e
    ensures Put(ls, s, k, v) == ls[i := ls[i][..e] + v]
  {}

  lemma InsertedTwice(ls: seq<string>, s: string, k: string, v1: string, v2: string)
    requires FindEntry(ls, 0, s, k).None? && PlainKey(k)
    ensures Put(Put(ls, s, k, v1), s, k, v2) == Put(ls, s, k, v2) <==> LeadingBlanks(v1) == 0
  {
    var ls1 := Put(ls, s, k, v1);
    var i := Slot(ls, s, k, v1).0 + |Slot(ls, s, k, v1).1| - 1;
    var last := EntryLine(k, v1)[..|k| + 1 + LeadingBlanks(v1)] + v2;
    InsertFound(ls, s, k, v1);
    PutOver(ls1, s, k, v2, i, |k| + 1 + LeadingBlanks(v1));
    SameSlot(ls, s, k, v1, v2);
    OverwriteTwice(k + "=", v1, v2);
    OneLineDiffers(ls1, i, last, EntryLine(k, v2));
  }

  lemma OneLineDiffers(ls: seq<string>, i: nat, a: string, b: string)
    requires i < |ls|
    ensures ls[i := a] == ls[i := b] <==> a == b
  {
    assert ls[i := a][i] == a && ls[i := b][i] == b;
  }

  lemma OverwriteTwice(front: string, v1: string, v2: string)
    ensures (front + v1)[..|front| + LeadingBlanks(v1)] + v2 == front + v2 <==> LeadingBlanks(v1) == 0
  {
    var n := LeadingBlanks(v1);
    assert |(front + v1)[..|front| + n] + v2| == |front + v2| + n;
    assert (front + v1)[..|front|] == front;
  }

  lemma SameSlot(ls: seq<string>, s: string, k: string, v1: string, v2: string)
    requires FindEntry(ls, 0, s, k).None?
    ensures var (n, mid) := Slot(ls, s, k, v1); var last := n + |mid| - 1;
      && Slot(ls, s, k, v2).0 == n && |Slot(ls, s, k, v2).1| == |mid|
      && Put(ls, s, k, v2) == Put(ls, s, k, v1)[last := EntryLine(k, v2)]
  {}

  /** Writing back what was read changes nothing exactly if the entry has no trailing blanks. */
  lemma PutWhatWasRead(ls: seq<string>, s: string, k: string)
    requires FindEntry(ls, 0, s, k).Some?
    ensures var i := FindEntry(ls, 0, s, k).value; var raw := ls[i][ValueAt(ls[i], k)..];
      Put(ls, s, k, Get(ls, s, k).value) == ls <==> TrimEnd(raw) == raw
  {
    var i := FindEntry(ls, 0, s, k).value;
    var e := ValueAt(ls[i], k);
    assert ls[i] == ls[i][..e] + ls[i][e..];
    assert Put(ls, s, k, Get(ls, s, k).value)[i] == ls[i][..e] + TrimEnd(ls[i][e..]);
  }

  // ----- The laws, on text -----

  function TextGet(text: string, s: string, k: string): Option<string> {
    Get(Lines(text), s, k)
  }

  function TextPut(text: string, s: string, k: string, v: string): string {
    Join(Put(Lines(text), s, k, v))
  }

  /** Written names and values that stay on their line keep the file a list of lines. */
  lemma PutIsClean(ls: seq<string>, s: string, k: string, v: string)
    requires CleanLines(ls) && NoNewline(s) && NoNewline(k) && NoNewline(v)
    ensures CleanLines(Put(ls, s, k, v))
  {
    PutKeeps(ls, s, k, v, NoNewline);
  }

  /** The laws hold for every text and survive any chain of writes: what is written is again a text of lines. */
  lemma TextLens(text: string, s: string, k: string, v: string)
    requires PlainKey(k) && NoNewline(s) && NoNewline(k) && NoNewline(v)
    ensures Terminated(TextPut(text, s, k, v)) && Lines(TextPut(text, s, k, v)) == Put(Lines(text), s, k, v)
    ensures TextGet(TextPut(text, s, k, v), s, k) == Some(Trim(v))
  {
    PutIsClean(Lines(text), s, k, v);
    LinesJoin(Put(Lines(text), s, k, v));
    PutThenGet(Lines(text), s, k, v);
  }

  lemma TextLensOthers(text: string, s: string, k: string, v: string, s': string, k': string)
    requires ValidKey(k) && ValidKey(k') && ValidSection(s) && ValidSection(s') && NoNewline(v)
    requires (s', k') != (s, k)
    ensures TextGet(TextPut(text, s, k, v), s', k') == TextGet(text, s', k')
  {
    TextLens(text, s, k, v);
    PutKeepsOthers(Lines(text), s, k, v, s', k');
  }

  lemma TextPutTwice(text: string, s: string, k: string, v1: string, v2: string)
    requires PlainKey(k) && NoNewline(s) && NoNewline(k) && NoNewline(v1) && NoNewline(v2)
    ensures TextPut(TextPut(text, s, k, v1), s, k, v2) == TextPut(text, s, k, v2) <==> LeadingBlanks(v1) == 0
  {
    var ls := Lines(text);
    TextLens(text, s, k, v1);
    TextLens(text, s, k, v2);
    TextLens(TextPut(text, s, k, v1), s, k, v2);
    PutTwiceExactly(ls, s, k, v1, v2);
  }
}
