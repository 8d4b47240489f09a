/**
 * What each packet is answered, and what an accepted REQUEST leaves behind: the answers
 * told by what is pending and what runs, without the order in which the code looks.
 */
module XdmcpAnswers {
  import opened Wrappers
  import opened Displays
  import opened Lifecycle
  import opened Xdmcp

  // ----- REQUEST -----

  /** A session is pending for this address and display number. */
  ghost predicate Pending(m: Xdm, from: Addr, num: nat) {
    exists p :: p in m.protos && IsFor(p, from, num)
  }

  /** It is this one. */
  predicate PendingAs(m: Xdm, from: Addr, num: nat, p: Proto) {
    p in m.protos && IsFor(p, from, num)
  }

  predicate WellFormed(req: Request) {
    |req.types| > 0 && |req.addresses| == |req.types|
  }

  predicate AnySupported(req: Request) {
    exists i :: 0 <= i < |req.types| && req.types[i] in {LocalConn, Internet, Internet6}
  }

  /** The first of the addresses that the daemon can reach. */
  ghost predicate Reachable(req: Request, i: nat) {
    && i < |req.types| && req.types[i] in {LocalConn, Internet, Internet6}
    && forall j :: 0 <= j < i ==> req.types[j].OtherConn?
  }

  /** There is a session to talk about, or one can be made. */
  ghost predicate Takes(m: Xdm, from: Addr, req: Request) {
    req.lengthOk && WellFormed(req) && (Pending(m, from, req.displayNumber) || AnySupported(req))
  }

  lemma PendingFound(m: Xdm, from: Addr, num: nat)
    ensures Pending(m, from, num) <==> FindProto(m.protos, from, num).Some?
    ensures var r := FindProto(m.protos, from, num); r.Some? ==> PendingAs(m, from, num, m.protos[r.value])
  {
    var r := FindProto(m.protos, from, num);
    if p :| p in m.protos && IsFor(p, from, num) {
      var j :| 0 <= j < |m.protos| && m.protos[j] == p;
    }
  }

  lemma OnePending(m: Xdm, from: Addr, num: nat, p: Proto, p': Proto)
    requires AllApart(m.protos) && PendingAs(m, from, num, p) && PendingAs(m, from, num, p')
    ensures p == p'
  {
    FoundProto(m, from, num, p);
    FoundProto(m, from, num, p');
  }

  lemma SupportedFound(req: Request)
    ensures AnySupported(req) <==> SelectType(req.types).Some?
    ensures SelectType(req.types).Some? ==> Reachable(req, SelectType(req.types).value)
  {}

  /** A REQUEST is answered by what is wrong with it first; with nothing wrong it is accepted. */
  lemma RequestAnswer(m: Xdm, from: Addr, req: Request)
    requires Inv(m)
    ensures var reply := RequestRespond(m, from, req).1;
      && (reply.Accept? <==> Takes(m, from, req) && req.authorizable && req.authentic)
      && (!req.lengthOk ==> reply == NoReply)
      && (req.lengthOk && !Takes(m, from, req) ==> reply == Decline(NoValidAddr))
      && (Takes(m, from, req) && !req.authorizable ==> reply == Decline(NoValidAuth))
      && (Takes(m, from, req) && req.authorizable && !req.authentic ==> reply == Decline(NoAuthentic))
  {
    PendingFound(m, from, req.displayNumber);
    SupportedFound(req);
  }

  /** What is pending after an accepted REQUEST. */
  ghost predicate NewlyPending(m: Xdm, from: Addr, req: Request, id: nat, p: Proto) {
    && IsFor(p, from, req.displayNumber) && p.sessionId == id && !Issued(m, id)
    && p.date == m.daemon.now % DATE_SPACE
    && exists i: nat :: Reachable(req, i) && p.connType == req.types[i] && i < |req.addresses|
                         && p.connAddr == req.addresses[i]
  }

  lemma Dropped(m: Xdm, k: nat, from: Addr, num: nat)
    requires AllApart(m.protos) && k < |m.protos| && IsFor(m.protos[k], from, num)
    ensures forall p :: p in DropProto(m.protos, k) ==> p in m.protos && !IsFor(p, from, num)
  {
    var ps := DropProto(m.protos, k);
    forall p | p in ps ensures p in m.protos && !IsFor(p, from, num) {
      var i :| 0 <= i < |ps| && ps[i] == p;
      var j := if i < k then i else i + 1;
      assert m.protos[j] == p && (j < k || k < j);
    }
  }

  /**
   * An accepted REQUEST leaves exactly one session pending for its address and display
   * number, under the id of the answer: the one that was pending before, unchanged, or
   * a new one, dated now, with an id never issued before and the first address that can
   * be reached. A declined one leaves none, if it got that far.
   */
  lemma RequestLeaves(m: Xdm, from: Addr, req: Request)
    requires Inv(m) && m.lastId - m.base < ID_SPACE
    ensures var (m', reply) := RequestRespond(m, from, req); var num := req.displayNumber;
      && (reply.Accept? ==> exists p ::
            && PendingAs(m', from, num, p) && p.sessionId == reply.sessionId
            && (if Pending(m, from, num) then PendingAs(m, from, num, p) && m' == m
                else NewlyPending(m, from, req, reply.sessionId, p)))
      && (reply.Decline? && Takes(m, from, req) ==> !Pending(m', from, num))
      && (reply.NoReply? || !Takes(m, from, req) ==> m' == m)
      && m'.daemon == m.daemon && m'.started == m.started
  {
    var (m', reply) := RequestRespond(m, from, req);
    var num := req.displayNumber;
    PendingFound(m, from, num);
    SupportedFound(req);
    var r, i := FindProto(m.protos, from, num), SelectType(req.types);
    if Takes(m, from, req) {
      if r.Some? {
        Dropped(m, r.value, from, num);
        assert reply.Accept? ==> PendingAs(m', from, num, m.protos[r.value]);
      } else {
        var t, a := req.types[i.value], req.addresses[i.value];
        NewProtoOk(m, from, num, t, a);
        NextIdIsNew(m);
        var m1 := NewProto(m, from, num, t, a);
        Dropped(m1, 0, from, num);
        assert Reachable(req, i.value);
        assert PendingAs(m1, from, num, m1.protos[0]);
        assert NewlyPending(m, from, req, m1.protos[0].sessionId, m1.protos[0]);
      }
    }
  }

  // ----- MANAGE -----

  /** A display of this address and number runs under this id; the first of them counts. */
  predicate ManagedAs(ds: seq<Display>, from: Addr, num: nat, id: nat) {
    var d := FindByAddress(ds, from, num);
    d.Some? && ds[d.value].info.sessionId == id
  }

  ghost predicate PendingUnder(m: Xdm, from: Addr, num: nat, id: nat) {
    exists p :: PendingAs(m, from, num, p) && p.sessionId == id
  }

  /**
   * MANAGE is refused exactly if its id is not the pending one, except that a copy for a
   * display that is managed under that id is passed over; it fails exactly if the id is
   * pending and there is no name; otherwise it is not answered.
   */
  lemma ManageAnswer(m: Xdm, from: Addr, id: nat, num: nat, lengthOk: bool, name: Option<string>, cfg: Config)
    requires Inv(m)
    ensures Manage(m, from, id, num, lengthOk, name, cfg).1 ==
      if !lengthOk then NoReply
      else if PendingUnder(m, from, num, id) then (if name.None? then Failed(id) else NoReply)
      else if !Pending(m, from, num) && ManagedAs(m.daemon.ds, from, num, id) then NoReply
      else Refuse(id)
  {
    PendingFound(m, from, num);
    var r := FindProto(m.protos, from, num);
    if r.Some? {
      if p :| PendingAs(m, from, num, p) && p.sessionId == id { OnePending(m, from, num, p, m.protos[r.value]); }
    }
  }

  // ----- KEEPALIVE -----

  /**
   * Without a running display under the id, KEEPALIVE is answered "not running", with
   * the id of the display that runs at the address instead, if no display has the id.
   */
  lemma AliveInstead(m: Xdm, from: Addr, id: nat, num: nat)
    requires Inv(m) && id != 0
    requires forall i :: 0 <= i < |m.daemon.ds| ==>
      !(m.daemon.ds[i].status == Running && m.daemon.ds[i].info.sessionId == id)
    ensures var ds := m.daemon.ds; var d := FindByAddress(ds, from, num);
      SendAlive(m, from, id, num, true) ==
      if (forall i :: 0 <= i < |ds| ==> ds[i].info.sessionId != id) && d.Some? && ds[d.value].status == Running
      then Alive(false, ds[d.value].info.sessionId)
      else Alive(false, 0)
  {}
}
