/**
 * The host lists of access.c: what a list stands for once its aliases are expanded,
 * in which order, and whom its hosts are told to.
 *
 * scanHostlist and scanEntrylist recurse through aliases without a limit, so they
 * end only if no alias contains itself. `rank` witnesses that.
 */
module AccessLists {
  import opened Wrappers
  import opened Glob

  type Bytes = seq<nat>

  datatype HostEntry =
    | Alias(pattern: string)
    | Pattern(pattern: string)
    | Address(ctype: nat, bytes: Bytes)
    | Broadcast

  datatype AliasEntry = AliasEntry(name: string, hosts: nat, nhosts: nat)

  datatype AclEntry = AclEntry(entries: nat, nentries: nat, hosts: nat, nhosts: nat,
                               notAllowed: bool, notBroadcast: bool, useChooser: bool)

  datatype Db = Db(hostList: seq<HostEntry>, aliasList: seq<AliasEntry>, acList: seq<AclEntry>)

  /** `name` is what networkAddressToHostname says about the address, if anything. */
  datatype Client = Client(addr: Bytes, ctype: nat, name: Option<string>)

  function ClientName(c: Client): string {
    if c.name.Some? then c.name.value else ""
  }

  // ----- Well-formed tables -----

  predicate InTable(db: Db, fh: nat, nh: nat) {
    fh + nh <= |db.hostList|
  }

  ghost predicate TablesOk(db: Db) {
    && (forall i :: 0 <= i < |db.aliasList| ==> InTable(db, db.aliasList[i].hosts, db.aliasList[i].nhosts))
    && (forall i :: 0 <= i < |db.acList| ==>
          && InTable(db, db.acList[i].entries, db.acList[i].nentries)
          && InTable(db, db.acList[i].hosts, db.acList[i].nhosts))
    && (forall i :: 0 <= i < |db.hostList| ==>
          (db.hostList[i].Alias? || db.hostList[i].Pattern? ==> GoodPattern(db.hostList[i].pattern)))
  }

  /** Alias number i goes by a name that the pattern accepts. */
  predicate Named(db: Db, i: nat, pattern: string)
    requires i < |db.aliasList| && GoodPattern(pattern)
  {
    Run(db.aliasList[i].name, Tokens(pattern))
  }

  /** All aliases that the entries mention have a rank below the given one. */
  ghost predicate Below(db: Db, rank: seq<nat>, fh: nat, nh: nat, top: nat)
    requires TablesOk(db) && InTable(db, fh, nh) && |rank| == |db.aliasList|
  {
    forall k, i :: fh <= k < fh + nh && db.hostList[k].Alias? && 0 <= i < |rank| && Named(db, i, db.hostList[k].pattern)
      ==> rank[i] < top
  }

  ghost predicate Acyclic(db: Db, rank: seq<nat>) {
    && TablesOk(db) && |rank| == |db.aliasList|
    && forall i :: 0 <= i < |rank| ==> Below(db, rank, db.aliasList[i].hosts, db.aliasList[i].nhosts, rank[i])
  }

  // ----- Expanded lists -----

  /** The entries from fh on, with each alias replaced by what it stands for. */
  ghost function Flat(db: Db, rank: seq<nat>, fh: nat, nh: nat, top: nat): (r: seq<HostEntry>)
    requires Acyclic(db, rank) && InTable(db, fh, nh) && Below(db, rank, fh, nh, top)
    decreases top, 1 + nh, 0
  {
    if nh == 0 then []
    else FlatEntry(db, rank, fh, top) + Flat(db, rank, fh + 1, nh - 1, top)
  }

  ghost function FlatEntry(db: Db, rank: seq<nat>, k: nat, top: nat): (r: seq<HostEntry>)
    requires Acyclic(db, rank) && InTable(db, k, 1) && Below(db, rank, k, 1, top)
    decreases top, 1, 0
  {
    if db.hostList[k].Alias? then Expand(db, rank, db.hostList[k].pattern, 0, top) else [db.hostList[k]]
  }

  /** Every alias from number i on that has a matching name, in the order of the alias table. */
  ghost function Expand(db: Db, rank: seq<nat>, pattern: string, i: nat, top: nat): (r: seq<HostEntry>)
    requires Acyclic(db, rank) && GoodPattern(pattern) && i <= |rank|
    requires forall j :: i <= j < |rank| && Named(db, j, pattern) ==> rank[j] < top
    decreases top, 0, |rank| - i
  {
    if i == |rank| then []
    else
      (if Named(db, i, pattern) then Flat(db, rank, db.aliasList[i].hosts, db.aliasList[i].nhosts, rank[i]) else [])
      + Expand(db, rank, pattern, i + 1, top)
  }

  /** Entry k of the host table is met by following the aliases in `path`, one inside the other. */
  ghost predicate Reached(db: Db, fh: nat, nh: nat, path: seq<nat>, k: nat)
    requires TablesOk(db) && InTable(db, fh, nh)
    decreases |path|
  {
    if path == [] then fh <= k < fh + nh && !db.hostList[k].Alias?
    else
      && path[0] < |db.aliasList|
      && (exists j :: fh <= j < fh + nh && db.hostList[j].Alias? && Named(db, path[0], db.hostList[j].pattern))
      && Reached(db, db.aliasList[path[0]].hosts, db.aliasList[path[0]].nhosts, path[1..], k)
  }

  lemma {:induction false} FlatReached(db: Db, rank: seq<nat>, fh: nat, nh: nat, top: nat, h: HostEntry)
      returns (path: seq<nat>, k: nat)
    requires Acyclic(db, rank) && InTable(db, fh, nh) && Below(db, rank, fh, nh, top)
    requires h in Flat(db, rank, fh, nh, top)
    ensures Reached(db, fh, nh, path, k) && k < |db.hostList| && db.hostList[k] == h
    decreases top, 1 + nh, 0
  {
    if h in FlatEntry(db, rank, fh, top) {
      if db.hostList[fh].Alias? {
        var i;
        i, path, k := ExpandReached(db, rank, db.hostList[fh].pattern, 0, top, h);
        path := [i] + path;
      } else {
        path, k := [], fh;
      }
    } else {
      path, k := FlatReached(db, rank, fh + 1, nh - 1, top, h);
    }
  }

  lemma {:induction false} ExpandReached(db: Db, rank: seq<nat>, pattern: string, i: nat, top: nat, h: HostEntry)
      returns (j: nat, path: seq<nat>, k: nat)
    requires Acyclic(db, rank) && GoodPattern(pattern) && i <= |rank|
    requires forall j :: i <= j < |rank| && Named(db, j, pattern) ==> rank[j] < top
    requires h in Expand(db, rank, pattern, i, top)
    ensures j < |rank| && Named(db, j, pattern)
    ensures Reached(db, db.aliasList[j].hosts, db.aliasList[j].nhosts, path, k)
    ensures k < |db.hostList| && db.hostList[k] == h
    decreases top, 0, |rank| - i
  {
    var a := db.aliasList[i];
    if Named(db, i, pattern) && h in Flat(db, rank, a.hosts, a.nhosts, rank[i]) {
      j := i;
      path, k := FlatReached(db, rank, a.hosts, a.nhosts, rank[i], h);
    } else {
      j, path, k := ExpandReached(db, rank, pattern, i + 1, top, h);
    }
  }

  lemma {:induction false} EntryInFlat(db: Db, rank: seq<nat>, fh: nat, nh: nat, top: nat, k: nat)
    requires Acyclic(db, rank) && InTable(db, fh, nh) && Below(db, rank, fh, nh, top) && fh <= k < fh + nh
    ensures forall h :: h in FlatEntry(db, rank, k, top) ==> h in Flat(db, rank, fh, nh, top)
    decreases nh
  {
    if k > fh { EntryInFlat(db, rank, fh + 1, nh - 1, top, k); }
  }

  lemma {:induction false} AliasInExpand(db: Db, rank: seq<nat>, pattern: string, i: nat, top: nat, j: nat)
    requires Acyclic(db, rank) && GoodPattern(pattern) && i <= j < |rank| && Named(db, j, pattern)
    requires forall j :: i <= j < |rank| && Named(db, j, pattern) ==> rank[j] < top
    ensures forall h :: h in Flat(db, rank, db.aliasList[j].hosts, db.aliasList[j].nhosts, rank[j]) ==>
      h in Expand(db, rank, pattern, i, top)
    decreases j - i
  {
    if i < j { AliasInExpand(db, rank, pattern, i + 1, top, j); }
  }

  lemma {:induction false} ReachedInFlat(db: Db, rank: seq<nat>, fh: nat, nh: nat, top: nat, path: seq<nat>, k: nat)
    requires Acyclic(db, rank) && InTable(db, fh, nh) && Below(db, rank, fh, nh, top)
    requires Reached(db, fh, nh, path, k)
    ensures k < |db.hostList| && db.hostList[k] in Flat(db, rank, fh, nh, top)
    decreases |path|
  {
    if path == [] {
      EntryInFlat(db, rank, fh, nh, top, k);
    } else {
      var i := path[0];
      var j :| fh <= j < fh + nh && db.hostList[j].Alias? && Named(db, i, db.hostList[j].pattern);
      ReachedInFlat(db, rank, db.aliasList[i].hosts, db.aliasList[i].nhosts, rank[i], path[1..], k);
      AliasInExpand(db, rank, db.hostList[j].pattern, 0, top, i);
      EntryInFlat(db, rank, fh, nh, top, j);
    }
  }

  ghost predicate ReachedAs(db: Db, fh: nat, nh: nat, path: seq<nat>, k: nat, h: HostEntry)
    requires TablesOk(db) && InTable(db, fh, nh)
  {
    Reached(db, fh, nh, path, k) && k < |db.hostList| && db.hostList[k] == h
  }

  /** The list comes down to this entry. */
  ghost predicate Reaches(db: Db, fh: nat, nh: nat, h: HostEntry)
    requires TablesOk(db) && InTable(db, fh, nh)
  {
    exists path: seq<nat>, k: nat :: ReachedAs(db, fh, nh, path, k, h)
  }

  /** The expanded list holds exactly the entries that can be reached through aliases. */
  lemma FlatIsReached(db: Db, rank: seq<nat>, fh: nat, nh: nat, top: nat, h: HostEntry)
    requires Acyclic(db, rank) && InTable(db, fh, nh) && Below(db, rank, fh, nh, top)
    ensures h in Flat(db, rank, fh, nh, top) <==> Reaches(db, fh, nh, h)
  {
    if h in Flat(db, rank, fh, nh, top) {
      var path, k := FlatReached(db, rank, fh, nh, top, h);
      assert ReachedAs(db, fh, nh, path, k, h);
    }
    if path: seq<nat>, k: nat :| ReachedAs(db, fh, nh, path, k, h) {
      ReachedInFlat(db, rank, fh, nh, top, path, k);
    }
  }

  // ----- Who is meant -----

  predicate Means(h: HostEntry, c: Client)
    requires h.Pattern? ==> GoodPattern(h.pattern)
  {
    match h
    case Pattern(p) => Run(ClientName(c), Tokens(p))
    case Address(ctype, bytes) => ctype == c.ctype && bytes == c.addr
    case _ => false
  }

  ghost predicate ListedBy(db: Db, fh: nat, nh: nat, c: Client, path: seq<nat>, k: nat)
    requires TablesOk(db) && InTable(db, fh, nh)
  {
    Reached(db, fh, nh, path, k) && k < |db.hostList| && Means(db.hostList[k], c)
  }

  /** Some entry that the list comes down to is about the client. */
  ghost predicate Listed(db: Db, fh: nat, nh: nat, c: Client)
    requires TablesOk(db) && InTable(db, fh, nh)
  {
    exists path: seq<nat>, k: nat :: ListedBy(db, fh, nh, c, path, k)
  }

  ghost predicate Rule(db: Db, e: nat, c: Client, direct: bool)
    requires TablesOk(db) && e < |db.acList|
  {
    (db.acList[e].nhosts == 0) == direct && Listed(db, db.acList[e].entries, db.acList[e].nentries, c)
  }

  /** The first rule of the kind that lists the client. */
  ghost predicate FirstRule(db: Db, r: Option<nat>, c: Client, direct: bool)
    requires TablesOk(db)
  {
    && (r.Some? ==> r.value < |db.acList| && Rule(db, r.value, c, direct))
    && forall e :: 0 <= e < (if r.Some? then r.value else |db.acList|) ==> !Rule(db, e, c, direct)
  }

  lemma OneFirstRule(db: Db, r: Option<nat>, r': Option<nat>, c: Client, direct: bool)
    requires TablesOk(db) && FirstRule(db, r, c, direct) && FirstRule(db, r', c, direct)
    ensures r == r'
  {}

  // ----- Whom the hosts are told -----

  datatype Call = ToHost(ctype: nat, bytes: Bytes) | ToBroadcast

  /** `local` is this host's address, if the caller wants to know whether it is listed. */
  function CallFor(h: HostEntry, ctype: nat, local: Option<Bytes>, broadcast: bool): seq<Call> {
    match h
    case Address(_, bytes) => if local == Some(bytes) then [] else [ToHost(ctype, bytes)]
    case Broadcast => if broadcast then [ToBroadcast] else []
    case _ => []
  }

  function Calls(hs: seq<HostEntry>, ctype: nat, local: Option<Bytes>, broadcast: bool): seq<Call> {
    if hs == [] then [] else CallFor(hs[0], ctype, local, broadcast) + Calls(hs[1..], ctype, local, broadcast)
  }

  /** The call that an entry is good for. */
  predicate Tells(h: HostEntry, ctype: nat, local: Option<Bytes>, broadcast: bool, call: Call) {
    match call
    case ToHost(t, b) => h.Address? && t == ctype && b == h.bytes && local != Some(b)
    case ToBroadcast => h.Broadcast? && broadcast
  }

  predicate IsLocal(h: HostEntry, local: Option<Bytes>) {
    h.Address? && local == Some(h.bytes)
  }

  ghost predicate AnyLocal(hs: seq<HostEntry>, local: Option<Bytes>) {
    exists i :: 0 <= i < |hs| && IsLocal(hs[i], local)
  }

  lemma {:induction false} CallsHold(hs: seq<HostEntry>, ctype: nat, local: Option<Bytes>, broadcast: bool, call: Call)
    ensures call in Calls(hs, ctype, local, broadcast) <==>
      exists i :: 0 <= i < |hs| && Tells(hs[i], ctype, local, broadcast, call)
  {
    if hs != [] {
      CallsHold(hs[1..], ctype, local, broadcast, call);
      if i :| 0 <= i < |hs[1..]| && Tells(hs[1..][i], ctype, local, broadcast, call) {
        assert Tells(hs[i+1], ctype, local, broadcast, call);
      }
      if i :| 0 <= i < |hs| && Tells(hs[i], ctype, local, broadcast, call) && i > 0 {
        assert Tells(hs[1..][i-1], ctype, local, broadcast, call);
      }
    }
  }

  /** To an entry with this address, whatever type it was given. */
  ghost predicate ReachesAddress(db: Db, fh: nat, nh: nat, bytes: Bytes)
    requires TablesOk(db) && InTable(db, fh, nh)
  {
    exists t: nat :: Reaches(db, fh, nh, Address(t, bytes))
  }

  /**
   * Each address that the list comes down to is told, unless it is the one asked for,
   * and broadcast if it is wanted and the list comes down to it; nothing else is.
   */
  ghost predicate ToldExactly(db: Db, fh: nat, nh: nat, ctype: nat, local: Option<Bytes>, broadcast: bool,
                              calls: seq<Call>)
    requires TablesOk(db) && InTable(db, fh, nh)
  {
    && (forall t, b :: ToHost(t, b) in calls <==> t == ctype && local != Some(b) && ReachesAddress(db, fh, nh, b))
    && (ToBroadcast in calls <==> broadcast && Reaches(db, fh, nh, Broadcast))
  }

  lemma CallsTold(db: Db, rank: seq<nat>, fh: nat, nh: nat, top: nat,
                  ctype: nat, local: Option<Bytes>, broadcast: bool)
    requires Acyclic(db, rank) && InTable(db, fh, nh) && Below(db, rank, fh, nh, top)
    ensures var hs := Flat(db, rank, fh, nh, top);
      && ToldExactly(db, fh, nh, ctype, local, broadcast, Calls(hs, ctype, local, broadcast))
      && (AnyLocal(hs, local) <==> local.Some? && ReachesAddress(db, fh, nh, local.value))
  {
    assert TablesOk(db);
    hide Calls, Flat, Reached, Acyclic, Below;
    var hs := Flat(db, rank, fh, nh, top);
    forall h ensures h in hs <==> Reaches(db, fh, nh, h) { FlatIsReached(db, rank, fh, nh, top, h); }
    hide Reaches;
    forall t, b
      ensures ToHost(t, b) in Calls(hs, ctype, local, broadcast) <==>
        t == ctype && local != Some(b) && ReachesAddress(db, fh, nh, b)
    {
      CallsHold(hs, ctype, local, broadcast, ToHost(t, b));
      AddressIn(db, fh, nh, hs, b);
    }
    CallsHold(hs, ctype, local, broadcast, ToBroadcast);
    if local.Some? { AddressIn(db, fh, nh, hs, local.value); }
  }

  lemma AddressIn(db: Db, fh: nat, nh: nat, hs: seq<HostEntry>, b: Bytes)
    requires TablesOk(db) && InTable(db, fh, nh) && forall h :: h in hs <==> Reaches(db, fh, nh, h)
    ensures ReachesAddress(db, fh, nh, b) <==> exists i :: 0 <= i < |hs| && hs[i].Address? && hs[i].bytes == b
  {
    hide Reaches;
    if t: nat :| Reaches(db, fh, nh, Address(t, b)) { assert Address(t, b) in hs; }
    if i :| 0 <= i < |hs| && hs[i].Address? && hs[i].bytes == b { assert hs[i] in hs; }
  }

  lemma {:induction false} CallsConcat(a: seq<HostEntry>, b: seq<HostEntry>,
                              ctype: nat, local: Option<Bytes>, broadcast: bool)
    ensures Calls(a + b, ctype, local, broadcast) ==
      Calls(a, ctype, local, broadcast) + Calls(b, ctype, local, broadcast)
    ensures AnyLocal(a + b, local) <==> AnyLocal(a, local) || AnyLocal(b, local)
  {
    var all := a + b;
    if i :| 0 <= i < |a| && IsLocal(a[i], local) { assert IsLocal(all[i], local); }
    if i :| 0 <= i < |b| && IsLocal(b[i], local) { assert IsLocal(all[|a| + i], local); }
    if i :| 0 <= i < |all| && IsLocal(all[i], local) { assert i < |a| || IsLocal(b[i - |a|], local); }
    CallsOnlyConcat(a, b, ctype, local, broadcast);
  }

  lemma CallsRegrouped(a: seq<Call>, b: seq<Call>, c: seq<Call>)
    ensures (a + b) + c == a + (b + c)
  {}

  lemma {:induction false} CallsOnlyConcat(a: seq<HostEntry>, b: seq<HostEntry>,
                              ctype: nat, local: Option<Bytes>, broadcast: bool)
    ensures Calls(a + b, ctype, local, broadcast) ==
      Calls(a, ctype, local, broadcast) + Calls(b, ctype, local, broadcast)
  {
    if a == [] {
      assert a + b == b;
    } else {
      CallsOnlyConcat(a[1..], b, ctype, local, broadcast);
      assert (a + b)[1..] == a[1..] + b;
      CallsRegrouped(CallFor(a[0], ctype, local, broadcast), Calls(a[1..], ctype, local, broadcast),
                     Calls(b, ctype, local, broadcast));
    }
  }
}
