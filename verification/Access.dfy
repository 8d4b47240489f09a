/**
 * The XDMCP access control of access.c: which rule decides about a client, and which
 * hosts a query is forwarded to.
 */
module Access {
  import opened Wrappers
  import opened Glob
  import opened AccessLists
  import opened AccessOrder

  method NameMatches(name: string, pattern: string) returns (r: bool)
    requires GoodPattern(pattern)
    ensures r <==> Run(name, Tokens(pattern))
  {
    assert pattern[0..] == pattern && name[0..] == name;
    r := PatternMatch(name, 0, pattern, 0);
  }

  lemma ListedSplit(db: Db, fh: nat, nh: nat, c: Client)
    requires TablesOk(db) && InTable(db, fh, nh) && nh > 0
    ensures Listed(db, fh, nh, c) <==> Listed(db, fh, 1, c) || Listed(db, fh + 1, nh - 1, c)
  {
    var f, n: nat := fh + 1, nh - 1;
    if path: seq<nat>, k: nat :| ListedBy(db, fh, nh, c, path, k) {
      ReachedSplit(db, fh, nh, path, k);
      assert ListedBy(db, fh, 1, c, path, k) || ListedBy(db, f, n, c, path, k);
    }
    if path: seq<nat>, k: nat :| ListedBy(db, fh, 1, c, path, k) {
      ReachedSplit(db, fh, nh, path, k);
      assert ListedBy(db, fh, nh, c, path, k);
    }
    if path: seq<nat>, k: nat :| ListedBy(db, f, n, c, path, k) {
      ReachedSplit(db, fh, nh, path, k);
      assert ListedBy(db, fh, nh, c, path, k);
    }
  }

  lemma {:induction false} ReachedSplit(db: Db, fh: nat, nh: nat, path: seq<nat>, k: nat)
    requires TablesOk(db) && InTable(db, fh, nh) && nh > 0
    ensures Reached(db, fh, nh, path, k) <==> Reached(db, fh, 1, path, k) || Reached(db, fh + 1, nh - 1, path, k)
  {}

  lemma ListedLeaf(db: Db, k: nat, c: Client)
    requires TablesOk(db) && InTable(db, k, 1) && !db.hostList[k].Alias?
    ensures Listed(db, k, 1, c) <==> Means(db.hostList[k], c)
  {
    if Means(db.hostList[k], c) { assert ListedBy(db, k, 1, c, [], k); }
  }

  /** Among the aliases from number i on there is one with the name that lists the client. */
  ghost predicate SomeAlias(db: Db, pattern: string, i: nat, c: Client)
    requires TablesOk(db) && GoodPattern(pattern)
  {
    exists j :: i <= j < |db.aliasList| && Named(db, j, pattern) &&
      Listed(db, db.aliasList[j].hosts, db.aliasList[j].nhosts, c)
  }

  lemma ListedAlias(db: Db, k: nat, c: Client)
    requires TablesOk(db) && InTable(db, k, 1) && db.hostList[k].Alias?
    ensures Listed(db, k, 1, c) <==> SomeAlias(db, db.hostList[k].pattern, 0, c)
  {
    if Listed(db, k, 1, c) {
      var path: seq<nat>, j: nat :| ListedBy(db, k, 1, c, path, j);
      var a := db.aliasList[path[0]];
      assert ListedBy(db, a.hosts, a.nhosts, c, path[1..], j);
    }
    if SomeAlias(db, db.hostList[k].pattern, 0, c) {
      var i :| 0 <= i < |db.aliasList| && Named(db, i, db.hostList[k].pattern) &&
               Listed(db, db.aliasList[i].hosts, db.aliasList[i].nhosts, c);
      var a := db.aliasList[i];
      var path: seq<nat>, j: nat :| ListedBy(db, a.hosts, a.nhosts, c, path, j);
      assert ([i] + path)[1..] == path;
      assert ListedBy(db, k, 1, c, [i] + path, j);
    }
  }

  /** scanEntrylist; `db` is the table read last by scanAccessDatabase. */
  method ScanEntrylist(db: Db, ghost rank: seq<nat>, fh: nat, nh: nat, ghost top: nat, c: Client) returns (r: bool)
    requires Acyclic(db, rank) && InTable(db, fh, nh) && Below(db, rank, fh, nh, top)
    ensures r <==> Listed(db, fh, nh, c)
    decreases top, 1, nh
  {
    hide Listed, Named;
    var h := fh;
    NothingListed(db, fh + nh, c);
    while h < fh + nh
      invariant fh <= h <= fh + nh
      invariant Listed(db, fh, nh, c) <==> Listed(db, h, fh + nh - h, c)
    {
      ListedSplit(db, h, fh + nh - h, c);
      var here: bool;
      if db.hostList[h].Alias? {
        ListedAlias(db, h, c);
        here := ScanAliases(db, rank, db.hostList[h].pattern, top, c);
      } else {
        ListedLeaf(db, h, c);
        here := EntryMatches(db.hostList[h], c);
      }
      if here { return true; }
      h := h + 1;
    }
    r := false;
  }

  lemma {:induction false} NothingListed(db: Db, k: nat, c: Client)
    requires TablesOk(db) && InTable(db, k, 0)
    ensures !Listed(db, k, 0, c)
  {}

  /** The cases of scanEntrylist that are not aliases. */
  method EntryMatches(h: HostEntry, c: Client) returns (r: bool)
    requires h.Pattern? ==> GoodPattern(h.pattern)
    ensures r <==> Means(h, c)
  {
    match h {
      case Pattern(p) => r := NameMatches(ClientName(c), p);
      case Address(ctype, bytes) => r := ctype == c.ctype && bytes == c.addr;
      case _ => r := false;
    }
  }

  /** The alias case of scanEntrylist. */
  method ScanAliases(db: Db, ghost rank: seq<nat>, pattern: string, ghost top: nat, c: Client) returns (r: bool)
    requires Acyclic(db, rank) && GoodPattern(pattern)
    requires forall j :: 0 <= j < |rank| && Named(db, j, pattern) ==> rank[j] < top
    ensures r <==> SomeAlias(db, pattern, 0, c)
    decreases top, 0, 0
  {
    hide Listed, Named;
    for i := 0 to |db.aliasList|
      invariant SomeAlias(db, pattern, 0, c) <==> SomeAlias(db, pattern, i, c)
    {
      var a := db.aliasList[i];
      var named := NameMatches(a.name, pattern);
      NamedIs(db, i, pattern);
      if named {
        var hit := ScanEntrylist(db, rank, a.hosts, a.nhosts, rank[i], c);
        if hit { return true; }
      }
    }
    r := false;
  }

  lemma NamedIs(db: Db, i: nat, pattern: string)
    requires i < |db.aliasList| && GoodPattern(pattern)
    ensures Named(db, i, pattern) <==> Run(db.aliasList[i].name, Tokens(pattern))
  {}

  /** matchAclEntry */
  method MatchAclEntry(db: Db, ghost rank: seq<nat>, ghost top: nat, c: Client, direct: bool) returns (r: Option<nat>)
    requires Acyclic(db, rank) && forall i :: 0 <= i < |rank| ==> rank[i] < top
    ensures FirstRule(db, r, c, direct)
  {
    hide Listed;
    for e := 0 to |db.acList|
      invariant forall j :: 0 <= j < e ==> !Rule(db, j, c, direct)
    {
      if (db.acList[e].nhosts == 0) == direct {
        var hit := ScanEntrylist(db, rank, db.acList[e].entries, db.acList[e].nentries, top, c);
        if hit { return Some(e); }
      }
    }
    r := None;
  }

  /** scanHostlist: the calls it makes, in order, and whether this host was among the addresses. */
  method ScanHostlist(db: Db, ghost rank: seq<nat>, fh: nat, nh: nat, ghost top: nat,
                      ctype: nat, local: Option<Bytes>, broadcast: bool)
    returns (calls: seq<Call>, haveLocalhost: bool)
    requires Acyclic(db, rank) && InTable(db, fh, nh) && Below(db, rank, fh, nh, top)
    ensures calls == Calls(Flat(db, rank, fh, nh, top), ctype, local, broadcast)
    ensures haveLocalhost <==> AnyLocal(Flat(db, rank, fh, nh, top), local)
    ensures ToldExactly(db, fh, nh, ctype, local, broadcast, calls)
    ensures CalledInOrder(db, fh, nh, ctype, local, broadcast, calls)
    ensures haveLocalhost <==> local.Some? && ReachesAddress(db, fh, nh, local.value)
    decreases top, 1, nh
  {
    hide Named, AnyLocal, ToldExactly, CalledInOrder, ReachesAddress;
    CallsTold(db, rank, fh, nh, top, ctype, local, broadcast);
    CallsInOrder(db, rank, fh, nh, top, ctype, local, broadcast);
    var h := fh;
    calls, haveLocalhost := [], false;
    ghost var done: seq<HostEntry> := [];
    assert done + Flat(db, rank, h, nh, top) == Flat(db, rank, fh, nh, top);
    NoneLocal(local);
    while h < fh + nh
      invariant fh <= h <= fh + nh && Below(db, rank, h, fh + nh - h, top)
      invariant done + Flat(db, rank, h, fh + nh - h, top) == Flat(db, rank, fh, nh, top)
      invariant calls == Calls(done, ctype, local, broadcast) && (haveLocalhost <==> AnyLocal(done, local))
    {
      ghost var part := FlatEntry(db, rank, h, top);
      var more, also := TellEntry(db, rank, h, top, ctype, local, broadcast);
      FlatStep(db, rank, h, fh + nh - h, top, done);
      CallsConcat(done, part, ctype, local, broadcast);
      calls, haveLocalhost := calls + more, haveLocalhost || also;
      done := done + part;
      h := h + 1;
    }
    assert done + [] == done;
  }

  lemma NoneLocal(local: Option<Bytes>)
    ensures !AnyLocal([], local)
  {}

  lemma NoCalls(ctype: nat, local: Option<Bytes>, broadcast: bool)
    ensures Calls([], ctype, local, broadcast) == []
  {}

  lemma FlatStep(db: Db, rank: seq<nat>, fh: nat, nh: nat, top: nat, done: seq<HostEntry>)
    requires Acyclic(db, rank) && InTable(db, fh, nh) && Below(db, rank, fh, nh, top) && nh > 0
    ensures done + Flat(db, rank, fh, nh, top) ==
      (done + FlatEntry(db, rank, fh, top)) + Flat(db, rank, fh + 1, nh - 1, top)
  {}

  /** One entry of scanHostlist. */
  method TellEntry(db: Db, ghost rank: seq<nat>, k: nat, ghost top: nat,
                   ctype: nat, local: Option<Bytes>, broadcast: bool)
    returns (calls: seq<Call>, haveLocalhost: bool)
    requires Acyclic(db, rank) && InTable(db, k, 1) && Below(db, rank, k, 1, top)
    ensures calls == Calls(FlatEntry(db, rank, k, top), ctype, local, broadcast)
    ensures haveLocalhost <==> AnyLocal(FlatEntry(db, rank, k, top), local)
    decreases top, 1, 0
  {
    hide Named;
    var h := db.hostList[k];
    calls, haveLocalhost := [], false;
    match h {
      case Alias(pattern) =>
        calls, haveLocalhost := TellAliases(db, rank, pattern, top, ctype, local, broadcast);
        return;
      case Address(_, bytes) =>
        if local == Some(bytes) { haveLocalhost := true; } else { calls := [ToHost(ctype, bytes)]; }
      case Broadcast =>
        if broadcast { calls := [ToBroadcast]; }
      case Pattern(_) =>
    }
    ghost var part := [h];
    assert part[1..] == [] && calls + [] == calls && part[0] == h;
    assert haveLocalhost ==> IsLocal(part[0], local);
  }

  /** The alias case of scanHostlist. */
  method TellAliases(db: Db, ghost rank: seq<nat>, pattern: string, ghost top: nat,
                     ctype: nat, local: Option<Bytes>, broadcast: bool)
    returns (calls: seq<Call>, haveLocalhost: bool)
    requires Acyclic(db, rank) && GoodPattern(pattern)
    requires forall j :: 0 <= j < |rank| && Named(db, j, pattern) ==> rank[j] < top
    ensures calls == Calls(Expand(db, rank, pattern, 0, top), ctype, local, broadcast)
    ensures haveLocalhost <==> AnyLocal(Expand(db, rank, pattern, 0, top), local)
    decreases top, 0, 0
  {
    hide Named, AnyLocal, Below, Calls, Flat;
    calls, haveLocalhost := [], false;
    ghost var done: seq<HostEntry> := [];
    assert done + Expand(db, rank, pattern, 0, top) == Expand(db, rank, pattern, 0, top);
    NoneLocal(local);
    NoCalls(ctype, local, broadcast);
    for i := 0 to |db.aliasList|
      invariant done + Expand(db, rank, pattern, i, top) == Expand(db, rank, pattern, 0, top)
      invariant calls == Calls(done, ctype, local, broadcast) && (haveLocalhost <==> AnyLocal(done, local))
    {
      var a := db.aliasList[i];
      var named := NameMatches(a.name, pattern);
      NamedIs(db, i, pattern);
      ExpandStep(db, rank, pattern, i, top, done);
      if named {
        var more, also := ScanHostlist(db, rank, a.hosts, a.nhosts, rank[i], ctype, local, broadcast);
        ghost var part := Flat(db, rank, a.hosts, a.nhosts, rank[i]);
        CallsConcat(done, part, ctype, local, broadcast);
        calls, haveLocalhost := calls + more, haveLocalhost || also;
        done := done + part;
      }
    }
    assert done + [] == done;
  }

  lemma ExpandStep(db: Db, rank: seq<nat>, pattern: string, i: nat, top: nat, done: seq<HostEntry>)
    requires Acyclic(db, rank) && GoodPattern(pattern) && i < |rank|
    requires forall j :: i <= j < |rank| && Named(db, j, pattern) ==> rank[j] < top
    ensures done + Expand(db, rank, pattern, i, top) ==
      (if Named(db, i, pattern)
       then done + Flat(db, rank, db.aliasList[i].hosts, db.aliasList[i].nhosts, rank[i]) else done)
      + Expand(db, rank, pattern, i + 1, top)
  {}

  // ----- What clients are granted -----

  datatype QueryType = Query | BroadcastQuery | IndirectQuery

  ghost predicate Bounded(db: Db, rank: seq<nat>, top: nat) {
    Acyclic(db, rank) && forall i :: 0 <= i < |rank| ==> rank[i] < top
  }

  method AcceptableDisplayAddress(db: Db, ghost rank: seq<nat>, ghost top: nat, c: Client, qtype: QueryType)
    returns (r: bool)
    requires Bounded(db, rank, top)
    ensures r <==>
      (|| qtype == IndirectQuery
       || exists e: nat :: FirstRule(db, Some(e), c, true) && !db.acList[e].notAllowed &&
                           (qtype == BroadcastQuery ==> !db.acList[e].notBroadcast))
  {
    if qtype == IndirectQuery { return true; }
    var e := MatchAclEntry(db, rank, top, c, true);
    ghost var first := e;
    forall e': nat | FirstRule(db, Some(e'), c, true) ensures Some(e') == first {
      OneFirstRule(db, first, Some(e'), c, true);
    }
    hide FirstRule;
    r := e.Some? && !db.acList[e.value].notAllowed &&
         (qtype != BroadcastQuery || !db.acList[e.value].notBroadcast);
  }

  method UseChooser(db: Db, ghost rank: seq<nat>, ghost top: nat, c: Client) returns (r: bool)
    requires Bounded(db, rank, top)
    ensures r <==>
      exists e: nat :: FirstRule(db, Some(e), c, false) && !db.acList[e].notAllowed && db.acList[e].useChooser
  {
    var e := MatchAclEntry(db, rank, top, c, false);
    ghost var first := e;
    forall e': nat | FirstRule(db, Some(e'), c, false) ensures Some(e') == first {
      OneFirstRule(db, first, Some(e'), c, false);
    }
    hide FirstRule;
    r := e.Some? && !db.acList[e.value].notAllowed && db.acList[e.value].useChooser;
  }

  /** `choice` is what indirectChoice returns for the client. */
  method ForEachMatchingIndirectHost(db: Db, ghost rank: seq<nat>, ghost top: nat, c: Client,
                                     choice: Option<Bytes>, local: Bytes)
    returns (calls: seq<Call>, haveLocalhost: bool)
    requires Bounded(db, rank, top)
    ensures FirstRule(db, None, c, false) ==> calls == [] && !haveLocalhost
    ensures forall r: nat :: FirstRule(db, Some(r), c, false) ==>
      var e := db.acList[r];
      if e.notAllowed then calls == [] && !haveLocalhost
      else if e.useChooser then
        && (haveLocalhost <==> choice.None? || choice.value == local)
        && calls == if haveLocalhost then [] else [ToHost(c.ctype, choice.value)]
      else
        && ToldExactly(db, e.hosts, e.nhosts, c.ctype, Some(local), false, calls)
        && CalledInOrder(db, e.hosts, e.nhosts, c.ctype, Some(local), false, calls)
        && (haveLocalhost <==> ReachesAddress(db, e.hosts, e.nhosts, local))
  {
    calls, haveLocalhost := [], false;
    var r := MatchAclEntry(db, rank, top, c, false);
    ghost var first := r;
    forall r': Option<nat> | FirstRule(db, r', c, false) ensures r' == first { OneFirstRule(db, first, r', c, false); }
    hide ToldExactly, CalledInOrder, ReachesAddress;
    if r.Some? && !db.acList[r.value].notAllowed {
      var e := db.acList[r.value];
      if e.useChooser {
        if choice.None? || choice.value == local {
          haveLocalhost := true;
        } else {
          calls := [ToHost(c.ctype, choice.value)];
        }
      } else {
        calls, haveLocalhost := ScanHostlist(db, rank, e.hosts, e.nhosts, top, c.ctype, Some(local), false);
      }
    }
  }

  /** The hosts that the chooser offers: all that the rule lists, broadcast included. */
  method ForEachChooserHost(db: Db, ghost rank: seq<nat>, ghost top: nat, c: Client) returns (calls: seq<Call>)
    requires Bounded(db, rank, top)
    ensures FirstRule(db, None, c, false) ==> calls == []
    ensures forall r: nat :: FirstRule(db, Some(r), c, false) ==>
      var e := db.acList[r];
      if e.notAllowed || !e.useChooser then calls == []
      else
        && ToldExactly(db, e.hosts, e.nhosts, c.ctype, None, true, calls)
        && CalledInOrder(db, e.hosts, e.nhosts, c.ctype, None, true, calls)
  {
    calls := [];
    var r := MatchAclEntry(db, rank, top, c, false);
    ghost var first := r;
    forall r': Option<nat> | FirstRule(db, r', c, false) ensures r' == first { OneFirstRule(db, first, r', c, false); }
    hide ToldExactly, CalledInOrder, ReachesAddress;
    if r.Some? && !db.acList[r.value].notAllowed && db.acList[r.value].useChooser {
      var e := db.acList[r.value];
      var local;
      calls, local := ScanHostlist(db, rank, e.hosts, e.nhosts, top, c.ctype, None, true);
    }
  }
}
