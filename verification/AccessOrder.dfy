/**
 * The order in which a host list is gone through: depth first, entries in the order of
 * the list and the aliases of an entry in the order of the alias table.
 */
module AccessOrder {
  import opened Wrappers
  import opened Glob
  import opened AccessLists

  /**
   * A way into the host table: an entry of the list, or an entry that is an alias, the
   * number of an alias of that name, and a way into the list of that alias.
   */
  ghost predicate Leads(db: Db, fh: nat, nh: nat, trail: seq<nat>)
    requires TablesOk(db) && InTable(db, fh, nh)
    decreases |trail|
  {
    && trail != [] && fh <= trail[0] < fh + nh
    && var h := db.hostList[trail[0]];
       if |trail| == 1 then !h.Alias?
       else
         && h.Alias? && trail[1] < |db.aliasList| && Named(db, trail[1], h.pattern)
         && Leads(db, db.aliasList[trail[1]].hosts, db.aliasList[trail[1]].nhosts, trail[2..])
  }

  lemma {:induction false} LeadsSomewhere(db: Db, fh: nat, nh: nat, trail: seq<nat>)
    requires TablesOk(db) && InTable(db, fh, nh) && Leads(db, fh, nh, trail)
    ensures trail != [] && trail[|trail|-1] < |db.hostList| && !db.hostList[trail[|trail|-1]].Alias?
    decreases |trail|
  {
    if |trail| > 1 {
      var a := db.aliasList[trail[1]];
      LeadsSomewhere(db, a.hosts, a.nhosts, trail[2..]);
      assert trail[2..][|trail|-3] == trail[|trail|-1];
    }
  }

  /** At the first place where they differ, a is before b. */
  ghost predicate BeforeAt(a: seq<nat>, b: seq<nat>, n: nat) {
    n < |a| && n < |b| && a[..n] == b[..n] && a[n] < b[n]
  }

  ghost predicate Before(a: seq<nat>, b: seq<nat>) {
    exists n: nat :: BeforeAt(a, b, n)
  }

  ghost predicate Ordered(trails: seq<seq<nat>>) {
    forall i, j :: 0 <= i < j < |trails| ==> Before(trails[i], trails[j])
  }

  // ----- All ways, in the order of the walk -----

  ghost function Trails(db: Db, rank: seq<nat>, fh: nat, nh: nat, top: nat): seq<seq<nat>>
    requires Acyclic(db, rank) && InTable(db, fh, nh) && Below(db, rank, fh, nh, top)
    decreases top, 1 + nh, 0
  {
    if nh == 0 then [] else EntryTrails(db, rank, fh, top) + Trails(db, rank, fh + 1, nh - 1, top)
  }

  ghost function EntryTrails(db: Db, rank: seq<nat>, k: nat, top: nat): seq<seq<nat>>
    requires Acyclic(db, rank) && InTable(db, k, 1) && Below(db, rank, k, 1, top)
    decreases top, 1, 0
  {
    if db.hostList[k].Alias? then Prefixed(k, AliasTrails(db, rank, db.hostList[k].pattern, 0, top)) else [[k]]
  }

  ghost function AliasTrails(db: Db, rank: seq<nat>, pattern: string, i: nat, top: nat): seq<seq<nat>>
    requires Acyclic(db, rank) && GoodPattern(pattern) && i <= |rank|
    requires forall j :: i <= j < |rank| && Named(db, j, pattern) ==> rank[j] < top
    decreases top, 0, |rank| - i
  {
    if i == |rank| then []
    else
      (if Named(db, i, pattern)
       then Prefixed(i, Trails(db, rank, db.aliasList[i].hosts, db.aliasList[i].nhosts, rank[i])) else [])
      + AliasTrails(db, rank, pattern, i + 1, top)
  }

  function Prefixed(k: nat, trails: seq<seq<nat>>): (r: seq<seq<nat>>)
    ensures |r| == |trails| && forall n :: 0 <= n < |r| ==> r[n] == [k] + trails[n]
  {
    seq(|trails|, n requires 0 <= n < |trails| => [k] + trails[n])
  }

  // ----- They are in order -----

  ghost predicate StartsIn(trails: seq<seq<nat>>, lo: nat, hi: nat) {
    forall n :: 0 <= n < |trails| ==> trails[n] != [] && lo <= trails[n][0] < hi
  }

  lemma PrefixedOrdered(k: nat, trails: seq<seq<nat>>)
    requires Ordered(trails)
    ensures Ordered(Prefixed(k, trails)) && StartsIn(Prefixed(k, trails), k, k + 1)
  {
    var r := Prefixed(k, trails);
    forall i, j | 0 <= i < j < |r| ensures Before(r[i], r[j]) {
      var n: nat :| BeforeAt(trails[i], trails[j], n);
      assert r[i][..n+1] == [k] + trails[i][..n] && r[j][..n+1] == [k] + trails[j][..n];
      assert BeforeAt(r[i], r[j], n + 1);
    }
  }

  lemma ConcatOrdered(a: seq<seq<nat>>, b: seq<seq<nat>>, lo: nat, hi: nat)
    requires Ordered(a) && Ordered(b) && StartsIn(a, lo, lo + 1) && StartsIn(b, lo + 1, hi) && lo < hi
    ensures Ordered(a + b) && StartsIn(a + b, lo, hi)
  {
    var r := a + b;
    forall i, j | 0 <= i < j < |r| ensures Before(r[i], r[j]) {
      if i < |a| <= j {
        assert r[j] == b[j-|a|] && BeforeAt(r[i], r[j], 0);
      } else if |a| <= i {
        assert r[i] == b[i-|a|] && r[j] == b[j-|a|];
      }
    }
  }

  lemma {:induction false} TrailsOrdered(db: Db, rank: seq<nat>, fh: nat, nh: nat, top: nat)
    requires Acyclic(db, rank) && InTable(db, fh, nh) && Below(db, rank, fh, nh, top)
    ensures Ordered(Trails(db, rank, fh, nh, top)) && StartsIn(Trails(db, rank, fh, nh, top), fh, fh + nh)
    decreases top, 1 + nh, 0
  {
    if nh > 0 {
      if db.hostList[fh].Alias? {
        AliasTrailsOrdered(db, rank, db.hostList[fh].pattern, 0, top);
        PrefixedOrdered(fh, AliasTrails(db, rank, db.hostList[fh].pattern, 0, top));
      }
      TrailsOrdered(db, rank, fh + 1, nh - 1, top);
      ConcatOrdered(EntryTrails(db, rank, fh, top), Trails(db, rank, fh + 1, nh - 1, top), fh, fh + nh);
    }
  }

  lemma {:induction false} AliasTrailsOrdered(db: Db, rank: seq<nat>, pattern: string, i: nat, top: nat)
    requires Acyclic(db, rank) && GoodPattern(pattern) && i <= |rank|
    requires forall j :: i <= j < |rank| && Named(db, j, pattern) ==> rank[j] < top
    ensures Ordered(AliasTrails(db, rank, pattern, i, top))
    ensures StartsIn(AliasTrails(db, rank, pattern, i, top), i, |rank|)
    decreases top, 0, |rank| - i
  {
    if i < |rank| {
      var a := db.aliasList[i];
      var rest := AliasTrails(db, rank, pattern, i + 1, top);
      AliasTrailsOrdered(db, rank, pattern, i + 1, top);
      if Named(db, i, pattern) {
        TrailsOrdered(db, rank, a.hosts, a.nhosts, rank[i]);
        PrefixedOrdered(i, Trails(db, rank, a.hosts, a.nhosts, rank[i]));
        ConcatOrdered(Prefixed(i, Trails(db, rank, a.hosts, a.nhosts, rank[i])), rest, i, |rank|);
      } else {
        assert [] + rest == rest;
      }
    }
  }

  // ----- They are all of them -----

  ghost predicate AliasLeads(db: Db, pattern: string, i: nat, trail: seq<nat>)
    requires TablesOk(db) && GoodPattern(pattern)
  {
    && trail != [] && i <= trail[0] < |db.aliasList| && Named(db, trail[0], pattern)
    && Leads(db, db.aliasList[trail[0]].hosts, db.aliasList[trail[0]].nhosts, trail[1..])
  }

  lemma PrefixedHas(k: nat, trails: seq<seq<nat>>, t: seq<nat>)
    ensures t in Prefixed(k, trails) <==> t != [] && t[0] == k && t[1..] in trails
  {
    var r := Prefixed(k, trails);
    if t in r {
      var n :| 0 <= n < |r| && r[n] == t;
      assert t[1..] == trails[n];
    }
    if t != [] && t[0] == k && t[1..] in trails {
      var n :| 0 <= n < |trails| && trails[n] == t[1..];
      assert r[n] == t;
    }
  }

  lemma LeadsFirst(db: Db, fh: nat, nh: nat, t: seq<nat>)
    requires TablesOk(db) && InTable(db, fh, nh) && nh > 0
    ensures Leads(db, fh, nh, t) <==> Leads(db, fh, 1, t) || Leads(db, fh + 1, nh - 1, t)
    ensures Leads(db, fh, 1, t) <==>
      if db.hostList[fh].Alias? then t != [] && t[0] == fh && AliasLeads(db, db.hostList[fh].pattern, 0, t[1..])
      else t == [fh]
  {
    if |t| > 1 { assert t[1..][1..] == t[2..]; }
  }

  lemma {:induction false} TrailsExactly(db: Db, rank: seq<nat>, fh: nat, nh: nat, top: nat, t: seq<nat>)
    requires Acyclic(db, rank) && InTable(db, fh, nh) && Below(db, rank, fh, nh, top)
    ensures t in Trails(db, rank, fh, nh, top) <==> Leads(db, fh, nh, t)
    decreases top, 1 + nh, 0
  {
    if nh > 0 {
      LeadsFirst(db, fh, nh, t);
      TrailsExactly(db, rank, fh + 1, nh - 1, top, t);
      var h := db.hostList[fh];
      if h.Alias? {
        PrefixedHas(fh, AliasTrails(db, rank, h.pattern, 0, top), t);
        if t != [] { AliasTrailsExactly(db, rank, h.pattern, 0, top, t[1..]); }
      }
      hide Leads, Named, AliasTrails;
      assert t in Trails(db, rank, fh, nh, top) <==>
        t in EntryTrails(db, rank, fh, top) || t in Trails(db, rank, fh + 1, nh - 1, top);
    }
  }

  lemma {:induction false} AliasTrailsExactly(db: Db, rank: seq<nat>, pattern: string, i: nat, top: nat, t: seq<nat>)
    requires Acyclic(db, rank) && GoodPattern(pattern) && i <= |rank|
    requires forall j :: i <= j < |rank| && Named(db, j, pattern) ==> rank[j] < top
    ensures t in AliasTrails(db, rank, pattern, i, top) <==> AliasLeads(db, pattern, i, t)
    decreases top, 0, |rank| - i
  {
    if i < |rank| {
      var a := db.aliasList[i];
      AliasTrailsExactly(db, rank, pattern, i + 1, top, t);
      if Named(db, i, pattern) {
        var trails := Trails(db, rank, a.hosts, a.nhosts, rank[i]);
        PrefixedHas(i, trails, t);
        if t != [] { TrailsExactly(db, rank, a.hosts, a.nhosts, rank[i], t[1..]); }
      }
    }
  }

  // ----- The expanded list goes along them -----

  /** The entry a way ends at. */
  ghost predicate EndsAt(db: Db, trail: seq<nat>, h: HostEntry) {
    trail != [] && trail[|trail|-1] < |db.hostList| && db.hostList[trail[|trail|-1]] == h
  }

  ghost predicate Along(db: Db, trails: seq<seq<nat>>, hs: seq<HostEntry>) {
    |trails| == |hs| && forall n :: 0 <= n < |hs| ==> EndsAt(db, trails[n], hs[n])
  }

  lemma AlongConcat(db: Db, a: seq<seq<nat>>, b: seq<seq<nat>>, x: seq<HostEntry>, y: seq<HostEntry>)
    requires Along(db, a, x) && Along(db, b, y)
    ensures Along(db, a + b, x + y)
  {
    forall n | 0 <= n < |x + y| ensures EndsAt(db, (a + b)[n], (x + y)[n]) {
      if n < |x| { assert EndsAt(db, a[n], x[n]); } else { assert EndsAt(db, b[n-|a|], y[n-|a|]); }
    }
  }

  lemma AlongPrefixed(db: Db, k: nat, a: seq<seq<nat>>, x: seq<HostEntry>)
    requires Along(db, a, x)
    ensures Along(db, Prefixed(k, a), x)
  {
    forall n | 0 <= n < |x| ensures EndsAt(db, Prefixed(k, a)[n], x[n]) { assert EndsAt(db, a[n], x[n]); }
  }

  lemma {:induction false} FlatAlong(db: Db, rank: seq<nat>, fh: nat, nh: nat, top: nat)
    requires Acyclic(db, rank) && InTable(db, fh, nh) && Below(db, rank, fh, nh, top)
    ensures Along(db, Trails(db, rank, fh, nh, top), Flat(db, rank, fh, nh, top))
    decreases top, 1 + nh, 0
  {
    if nh > 0 {
      var h := db.hostList[fh];
      if h.Alias? {
        ExpandAlong(db, rank, h.pattern, 0, top);
        AlongPrefixed(db, fh, AliasTrails(db, rank, h.pattern, 0, top), Expand(db, rank, h.pattern, 0, top));
      }
      FlatAlong(db, rank, fh + 1, nh - 1, top);
      AlongConcat(db, EntryTrails(db, rank, fh, top), Trails(db, rank, fh + 1, nh - 1, top),
                  FlatEntry(db, rank, fh, top), Flat(db, rank, fh + 1, nh - 1, top));
    }
  }

  lemma {:induction false} ExpandAlong(db: Db, rank: seq<nat>, pattern: string, i: nat, top: nat)
    requires Acyclic(db, rank) && GoodPattern(pattern) && i <= |rank|
    requires forall j :: i <= j < |rank| && Named(db, j, pattern) ==> rank[j] < top
    ensures Along(db, AliasTrails(db, rank, pattern, i, top), Expand(db, rank, pattern, i, top))
    decreases top, 0, |rank| - i
  {
    if i < |rank| {
      var a := db.aliasList[i];
      ExpandAlong(db, rank, pattern, i + 1, top);
      var rest, hs := AliasTrails(db, rank, pattern, i + 1, top), Expand(db, rank, pattern, i + 1, top);
      if Named(db, i, pattern) {
        var trails, part := Trails(db, rank, a.hosts, a.nhosts, rank[i]), Flat(db, rank, a.hosts, a.nhosts, rank[i]);
        FlatAlong(db, rank, a.hosts, a.nhosts, rank[i]);
        AlongPrefixed(db, i, trails, part);
        AlongConcat(db, Prefixed(i, trails), rest, part, hs);
      } else {
        assert [] + rest == rest && [] + hs == hs;
      }
    }
  }

  // ----- Whom the hosts are told, in order -----

  /** A way to an entry that is good for a call. */
  ghost predicate Telling(db: Db, trail: seq<nat>, ctype: nat, local: Option<Bytes>, broadcast: bool, call: Call) {
    && trail != [] && trail[|trail|-1] < |db.hostList|
    && Tells(db.hostList[trail[|trail|-1]], ctype, local, broadcast, call)
  }

  /** These are the ways to the entries that are good for a call, in order, and the calls are theirs. */
  ghost predicate CalledAlong(db: Db, fh: nat, nh: nat, ctype: nat, local: Option<Bytes>, broadcast: bool,
                              trails: seq<seq<nat>>, calls: seq<Call>)
    requires TablesOk(db) && InTable(db, fh, nh)
  {
    && Ordered(trails) && |trails| == |calls|
    && (forall n :: 0 <= n < |calls| ==>
          Leads(db, fh, nh, trails[n]) && Telling(db, trails[n], ctype, local, broadcast, calls[n]))
    && (forall t, call :: Leads(db, fh, nh, t) && Telling(db, t, ctype, local, broadcast, call) ==> t in trails)
  }

  ghost predicate CalledInOrder(db: Db, fh: nat, nh: nat, ctype: nat, local: Option<Bytes>, broadcast: bool,
                                calls: seq<Call>)
    requires TablesOk(db) && InTable(db, fh, nh)
  {
    exists trails :: CalledAlong(db, fh, nh, ctype, local, broadcast, trails, calls)
  }

  /** Those of the ways that lead to a call. */
  ghost function Useful(db: Db, trails: seq<seq<nat>>, hs: seq<HostEntry>,
                        ctype: nat, local: Option<Bytes>, broadcast: bool): (r: seq<seq<nat>>)
    requires Along(db, trails, hs)
    ensures forall t :: t in r ==> t in trails
    decreases |hs|
  {
    if hs == [] then []
    else
      (if CallFor(hs[0], ctype, local, broadcast) == [] then [] else [trails[0]])
      + Useful(db, trails[1..], hs[1..], ctype, local, broadcast)
  }

  lemma CallIsTold(h: HostEntry, ctype: nat, local: Option<Bytes>, broadcast: bool, call: Call)
    ensures CallFor(h, ctype, local, broadcast) == [call] <==> Tells(h, ctype, local, broadcast, call)
    ensures |CallFor(h, ctype, local, broadcast)| <= 1
  {}

  lemma AlongRest(db: Db, trails: seq<seq<nat>>, hs: seq<HostEntry>)
    requires Along(db, trails, hs) && hs != []
    ensures EndsAt(db, trails[0], hs[0]) && Along(db, trails[1..], hs[1..])
  {
    forall n | 0 <= n < |hs| - 1 ensures EndsAt(db, trails[1..][n], hs[1..][n]) {
      assert EndsAt(db, trails[n+1], hs[n+1]);
    }
  }

  lemma {:induction false} UsefulOrdered(db: Db, trails: seq<seq<nat>>, hs: seq<HostEntry>,
                                         ctype: nat, local: Option<Bytes>, broadcast: bool)
    requires Along(db, trails, hs) && Ordered(trails)
    ensures Ordered(Useful(db, trails, hs, ctype, local, broadcast))
    decreases |hs|
  {
    if hs != [] {
      var rest := Useful(db, trails[1..], hs[1..], ctype, local, broadcast);
      AlongRest(db, trails, hs);
      UsefulOrdered(db, trails[1..], hs[1..], ctype, local, broadcast);
      hide CallFor, Before;
      UsefulFirst(trails, rest);
      assert [] + rest == rest;
    }
  }

  ghost predicate ToldAlong(
    db: Db, r: seq<seq<nat>>, ctype: nat, local: Option<Bytes>, broadcast: bool, calls: seq<Call>)
  {
    |r| == |calls| && forall n :: 0 <= n < |r| ==> Telling(db, r[n], ctype, local, broadcast, calls[n])
  }

  lemma {:induction false} UsefulTold(db: Db, trails: seq<seq<nat>>, hs: seq<HostEntry>,
                                      ctype: nat, local: Option<Bytes>, broadcast: bool)
    requires Along(db, trails, hs)
    ensures ToldAlong(db, Useful(db, trails, hs, ctype, local, broadcast), ctype, local, broadcast,
                      Calls(hs, ctype, local, broadcast))
    decreases |hs|
  {
    if hs != [] {
      var own := CallFor(hs[0], ctype, local, broadcast);
      var rest := Useful(db, trails[1..], hs[1..], ctype, local, broadcast);
      var calls := Calls(hs[1..], ctype, local, broadcast);
      AlongRest(db, trails, hs);
      UsefulTold(db, trails[1..], hs[1..], ctype, local, broadcast);
      hide CallFor, Along;
      if own == [] {
        assert [] + rest == rest && [] + calls == calls;
      } else {
        CallIsTold(hs[0], ctype, local, broadcast, own[0]);
        assert own == [own[0]];
        ToldOneMore(db, trails[0], own[0], rest, ctype, local, broadcast, calls);
      }
    }
  }

  lemma ToldOneMore(db: Db, t: seq<nat>, call: Call, r: seq<seq<nat>>,
                    ctype: nat, local: Option<Bytes>, broadcast: bool, calls: seq<Call>)
    requires ToldAlong(db, r, ctype, local, broadcast, calls) && Telling(db, t, ctype, local, broadcast, call)
    ensures ToldAlong(db, [t] + r, ctype, local, broadcast, [call] + calls)
  {}

  lemma {:induction false} UsefulHas(db: Db, trails: seq<seq<nat>>, hs: seq<HostEntry>,
                                     ctype: nat, local: Option<Bytes>, broadcast: bool, t: seq<nat>, call: Call)
    requires Along(db, trails, hs) && t in trails && Telling(db, t, ctype, local, broadcast, call)
    ensures t in Useful(db, trails, hs, ctype, local, broadcast)
    decreases |hs|
  {
    AlongRest(db, trails, hs);
    CallIsTold(hs[0], ctype, local, broadcast, call);
    hide CallFor, Tells;
    if t == trails[0] {
      assert CallFor(hs[0], ctype, local, broadcast) == [call];
    } else {
      UsefulHas(db, trails[1..], hs[1..], ctype, local, broadcast, t, call);
    }
  }

  lemma UsefulFirst(trails: seq<seq<nat>>, rest: seq<seq<nat>>)
    requires trails != [] && Ordered(trails) && Ordered(rest) && forall t :: t in rest ==> t in trails[1..]
    ensures Ordered([trails[0]] + rest)
  {
    var r := [trails[0]] + rest;
    forall i, j | 0 <= i < j < |r| ensures Before(r[i], r[j]) {
      assert r[j] == rest[j-1] && r[j] in trails[1..];
      if i == 0 {
        var k :| 0 <= k < |trails[1..]| && trails[1..][k] == r[j];
        assert trails[k+1] == r[j];
      } else {
        assert r[i] == rest[i-1];
      }
    }
  }

  /** The hosts of a list are told in the order in which the list comes down to them. */
  lemma CallsInOrder(db: Db, rank: seq<nat>, fh: nat, nh: nat, top: nat,
                     ctype: nat, local: Option<Bytes>, broadcast: bool)
    requires Acyclic(db, rank) && InTable(db, fh, nh) && Below(db, rank, fh, nh, top)
    ensures var calls := Calls(Flat(db, rank, fh, nh, top), ctype, local, broadcast);
            CalledInOrder(db, fh, nh, ctype, local, broadcast, calls)
  {
    var trails, hs := Trails(db, rank, fh, nh, top), Flat(db, rank, fh, nh, top);
    TrailsOrdered(db, rank, fh, nh, top);
    FlatAlong(db, rank, fh, nh, top);
    UsefulOrdered(db, trails, hs, ctype, local, broadcast);
    UsefulTold(db, trails, hs, ctype, local, broadcast);
    forall t, call | t in trails && Telling(db, t, ctype, local, broadcast, call)
      ensures t in Useful(db, trails, hs, ctype, local, broadcast)
    {
      UsefulHas(db, trails, hs, ctype, local, broadcast, t, call);
    }
    forall t ensures t in trails <==> Leads(db, fh, nh, t) { TrailsExactly(db, rank, fh, nh, top, t); }
    var r := Useful(db, trails, hs, ctype, local, broadcast);
    hide Trails, Flat, Calls, Leads, Telling, Ordered, Useful;
    assert forall n :: 0 <= n < |r| ==> r[n] in trails;
    assert CalledAlong(db, fh, nh, ctype, local, broadcast, r, Calls(hs, ctype, local, broadcast));
  }
}
