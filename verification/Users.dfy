/**
 * The list of users and groups that the KDM control module offers for selection
 * (kcm/main.cpp). It depends on a range of user ids, and a change of the range is
 * passed on as what to delete and what to add, never by starting over.
 *
 * An `Item` is a line of the list. The program writes groups as '@' and the name,
 * which presumes that no user's name starts with '@'.
 */
module Users {
  datatype User = User(name: string, uid: int, groups: seq<string>)

  datatype Item = UserItem(name: string) | GroupItem(name: string)

  predicate InRange(uid: int, min: int, max: int) {
    min <= uid <= max
  }

  /** The superuser is always offered. */
  predicate Shown(u: User, min: int, max: int) {
    u.uid == 0 || InRange(u.uid, min, max)
  }

  // ----- From scratch -----

  /** How often each group occurs among the shown users. */
  function Held(us: seq<User>, min: int, max: int): multiset<string> {
    if us == [] then multiset{} else HeldBy(us[0], min, max) + Held(us[1..], min, max)
  }

  function HeldBy(u: User, min: int, max: int): multiset<string> {
    if Shown(u, min, max) then multiset(u.groups) else multiset{}
  }

  function UserItems(us: seq<User>, min: int, max: int): set<Item> {
    set u | u in us && Shown(u, min, max) :: UserItem(u.name)
  }

  function GroupItems(held: multiset<string>): set<Item> {
    set g | g in held :: GroupItem(g)
  }

  /** What is to be offered for a range. */
  function Listing(us: seq<User>, min: int, max: int): set<Item> {
    UserItems(us, min, max) + GroupItems(Held(us, min, max))
  }

  /** The superuser is always among them, and so are the users at both ends of the range, with their groups. */
  lemma {:induction false} RangeIsInclusive(us: seq<User>, i: nat, min: int, max: int, g: string)
    requires i < |us| && (us[i].uid == 0 || (min <= max && us[i].uid in {min, max}))
    ensures UserItem(us[i].name) in Listing(us, min, max)
    ensures g in us[i].groups ==> GroupItem(g) in Listing(us, min, max)
    decreases i
  {
    assert us[i] in us;
    if g in us[i].groups { HeldHas(us, i, min, max, g); }
  }

  lemma {:induction false} HeldHas(us: seq<User>, i: nat, min: int, max: int, g: string)
    requires i < |us| && Shown(us[i], min, max) && g in us[i].groups
    ensures g in Held(us, min, max)
    decreases i
  {
    if i > 0 { HeldHas(us[1..], i - 1, min, max, g); }
  }

  ghost predicate Counted(groupmap: map<string, nat>, held: multiset<string>) {
    && (forall g :: g in groupmap <==> g in held)
    && (forall g :: g in groupmap ==> groupmap[g] == held[g])
  }

  ghost predicate UniqueNames(us: seq<User>) {
    forall i, j :: 0 <= i < j < |us| ==> us[i].name != us[j].name
  }

  lemma {:induction false} HeldConcat(a: seq<User>, b: seq<User>, min: int, max: int)
    ensures Held(a + b, min, max) == Held(a, min, max) + Held(b, min, max)
  {
    hide HeldBy;
    if a == [] {
      assert a + b == b;
    } else {
      HeldConcat(a[1..], b, min, max);
      assert (a + b)[0] == a[0] && (a + b)[1..] == a[1..] + b;
      HeldFirst(a + b, min, max);
      HeldFirst(a, min, max);
      hide Held;
      Regrouped(HeldBy(a[0], min, max), Held(a[1..], min, max), Held(b, min, max));
    }
  }

  lemma HeldFirst(us: seq<User>, min: int, max: int)
    requires us != []
    ensures Held(us, min, max) == HeldBy(us[0], min, max) + Held(us[1..], min, max)
  {}

  lemma Regrouped(a: multiset<string>, b: multiset<string>, c: multiset<string>)
    ensures (a + b) + c == a + (b + c)
  {}

  lemma HeldNext(us: seq<User>, i: nat, min: int, max: int)
    requires i < |us|
    ensures Held(us[..i+1], min, max) == Held(us[..i], min, max) + HeldBy(us[i], min, max)
    ensures Held(us[i..], min, max) == HeldBy(us[i], min, max) + Held(us[i+1..], min, max)
  {
    assert us[..i+1] == us[..i] + [us[i]];
    HeldConcat(us[..i], [us[i]], min, max);
    assert [us[i]][1..] == [];
    assert us[i..][1..] == us[i+1..];
  }

  /** A group is held exactly if one of the shown users is in it. */
  lemma {:induction false} HeldExactly(us: seq<User>, min: int, max: int, g: string)
    ensures g in Held(us, min, max) <==> exists u :: u in us && Shown(u, min, max) && g in u.groups
  {
    if us != [] {
      HeldExactly(us[1..], min, max, g);
      assert us == [us[0]] + us[1..];
    }
  }

  function CountedOn(groupmap: map<string, nat>, g: string): map<string, nat> {
    groupmap[g := if g in groupmap then groupmap[g] + 1 else 1]
  }

  lemma CountOne(groupmap: map<string, nat>, held: multiset<string>, g: string)
    requires Counted(groupmap, held)
    ensures Counted(CountedOn(groupmap, g), held + multiset{g})
    ensures GroupItems(held + multiset{g}) == GroupItems(held) + {GroupItem(g)}
    ensures g in groupmap ==> GroupItem(g) in GroupItems(held)
  {}

  lemma GroupsNext(held: multiset<string>, groups: seq<string>, j: nat)
    requires j < |groups|
    ensures held + multiset(groups[..j+1]) == (held + multiset(groups[..j])) + multiset{groups[j]}
    ensures held + multiset(groups[..0]) == held && held + multiset(groups[..|groups|]) == held + multiset(groups)
  {
    assert groups[..j+1] == groups[..j] + [groups[j]];
    assert groups[..|groups|] == groups;
  }

  // ----- By difference -----

  /** Halfway through the users: the counts, and what will be added and deleted. */
  datatype Delta = Delta(groupmap: map<string, nat>, add: set<Item>, del: set<Item>)

  function AddGroup(d: Delta, g: string): Delta {
    if g !in d.groupmap then d.(groupmap := d.groupmap[g := 1], add := d.add + {GroupItem(g)})
    else d.(groupmap := d.groupmap[g := d.groupmap[g] + 1])
  }

  function DropGroup(d: Delta, g: string): Delta
    requires g in d.groupmap && d.groupmap[g] > 0
  {
    if d.groupmap[g] == 1 then d.(groupmap := d.groupmap - {g}, del := d.del + {GroupItem(g)})
    else d.(groupmap := d.groupmap[g := d.groupmap[g] - 1])
  }

  /**
   * `was` is held at the beginning, `held` now, and `rest` is the part of `held` that
   * stems from users yet to be looked at. A group to be added is not dropped again.
   */
  ghost predicate GroupOk(d: Delta, was: multiset<string>, held: multiset<string>, rest: multiset<string>, g: string) {
    var i := GroupItem(g);
    && (i in d.add ==> g in held && g !in rest && (i in d.del || g !in was))
    && (i !in d.add ==> (g in held <==> g in was && i !in d.del))
  }

  ghost predicate Moving(d: Delta, was: multiset<string>, held: multiset<string>, rest: multiset<string>) {
    Counted(d.groupmap, held) && rest <= held && forall g :: GroupOk(d, was, held, rest, g)
  }

  lemma AddGroupMoves(d: Delta, was: multiset<string>, held: multiset<string>, rest: multiset<string>, g: string)
    requires Moving(d, was, held, rest)
    ensures Moving(AddGroup(d, g), was, held + multiset{g}, rest)
  {
    var d', held' := AddGroup(d, g), held + multiset{g};
    assert GroupOk(d, was, held, rest, g);
    assert g !in held ==> g !in rest;
    forall h ensures GroupOk(d', was, held', rest, h) {
      assert GroupOk(d, was, held, rest, h);
    }
  }

  lemma DropGroupMoves(d: Delta, was: multiset<string>, held: multiset<string>, rest: multiset<string>, g: string)
    requires Moving(d, was, held, rest) && g in rest
    ensures g in d.groupmap && d.groupmap[g] > 0
    ensures Moving(DropGroup(d, g), was, held - multiset{g}, rest - multiset{g})
  {
    assert rest[g] <= held[g];
    var d', held', rest' := DropGroup(d, g), held - multiset{g}, rest - multiset{g};
    assert GroupOk(d, was, held, rest, g);
    forall h ensures GroupOk(d', was, held', rest', h) {
      assert GroupOk(d, was, held, rest, h);
    }
  }

  /** In the end, the groups listed are those that are held. */
  lemma GroupsAgree(d: Delta, was: multiset<string>, held: multiset<string>, g: string)
    requires Moving(d, was, held, multiset{})
    ensures g in held <==> GroupItem(g) in d.add || (g in was && GroupItem(g) !in d.del)
    ensures GroupItem(g) in d.add ==> g !in was || GroupItem(g) in d.del
  {
    assert GroupOk(d, was, held, multiset{}, g);
  }

  // ----- The code -----

  class KDModule {
    const usermap: seq<User>
    var groupmap: map<string, nat>
    var minshowuid: int
    var maxshowuid: int
    var updateOK: bool
    var listed: multiset<Item>          // the lines of the widget that the signals reach

    /** Counts and list are what they would be if they were computed now. */
    ghost predicate Agrees()
      reads this
    {
      && Counted(groupmap, Held(usermap, minshowuid, maxshowuid))
      && listed == multiset(Listing(usermap, minshowuid, maxshowuid))
    }

    ghost predicate Valid()
      reads this
    {
      UniqueNames(usermap) && (updateOK ==> Agrees())
    }

    constructor (usermap: seq<User>)
      requires UniqueNames(usermap)
      ensures Valid() && !updateOK && this.usermap == usermap
    {
      this.usermap := usermap;
      groupmap, listed := map[], multiset{};
      minshowuid, maxshowuid, updateOK := 0, 0, false;
    }

    method ClearUsers()
      modifies this`listed
      ensures listed == multiset{}
    {
      listed := multiset{};
    }

    method AddUsers(items: set<Item>)
      modifies this`listed
      ensures listed == old(listed) + multiset(items)
    {
      listed := listed + multiset(items);
    }

    /** All lines with one of the names go. */
    method DelUsers(items: set<Item>)
      modifies this`listed
      ensures forall i :: listed[i] == if i in items then 0 else old(listed)[i]
    {
      var todo := items;
      while todo != {}
        invariant todo <= items
        invariant forall i :: listed[i] == if i in items - todo then 0 else old(listed)[i]
        decreases |todo|
      {
        var i :| i in todo;
        listed := listed[i := 0];
        todo := todo - {i};
      }
    }

    method PropagateUsers()
      requires Valid()
      modifies this`groupmap, this`listed, this`updateOK
      ensures Valid() && updateOK && Agrees()
    {
      hide Held, UserItems, GroupItems, Counted;
      groupmap := map[];
      ClearUsers();
      NothingYet(groupmap, usermap, minshowuid, maxshowuid);
      var lusers: set<Item> := {};
      for i := 0 to |usermap|
        invariant Counted(groupmap, Held(usermap[..i], minshowuid, maxshowuid))
        invariant lusers == Listing(usermap[..i], minshowuid, maxshowuid) && listed == multiset{}
      {
        var u := usermap[i];
        HeldNext(usermap, i, minshowuid, maxshowuid);
        UserItemsNext(usermap, i, minshowuid, maxshowuid);
        ghost var held := Held(usermap[..i], minshowuid, maxshowuid);
        if u.uid == 0 || InRange(u.uid, minshowuid, maxshowuid) {
          lusers := lusers + {UserItem(u.name)};
          lusers := CountGroups(u.groups, lusers, held, UserItems(usermap[..i+1], minshowuid, maxshowuid));
        } else {
          assert held + multiset{} == held;
        }
      }
      assert usermap[..|usermap|] == usermap;
      assert multiset{} + multiset(lusers) == multiset(lusers);
      AddUsers(lusers);
      updateOK := true;
    }

    /** The inner loop of propagateUsers. */
    method CountGroups(groups: seq<string>, lusers0: set<Item>, ghost held: multiset<string>, ghost items: set<Item>)
      returns (lusers: set<Item>)
      requires Counted(groupmap, held) && lusers0 == items + GroupItems(held)
      modifies this`groupmap
      ensures Counted(groupmap, held + multiset(groups)) && lusers == items + GroupItems(held + multiset(groups))
    {
      hide Counted, GroupItems;
      lusers := lusers0;
      assert groups[..0] == [] && held + multiset{} == held;
      for j := 0 to |groups|
        invariant Counted(groupmap, held + multiset(groups[..j]))
        invariant lusers == items + GroupItems(held + multiset(groups[..j]))
      {
        var g := groups[j];
        GroupsNext(held, groups, j);
        CountOne(groupmap, held + multiset(groups[..j]), g);
        if g !in groupmap {
          groupmap := groupmap[g := 1];
          lusers := lusers + {GroupItem(g)};
        } else {
          groupmap := groupmap[g := groupmap[g] + 1];
        }
      }
      assert groups[..|groups|] == groups;
    }

    /** A group loop of slotMinMaxUID for a user who is no longer in range. */
    method DropGroups(groups: seq<string>, ghost add: set<Item>, del0: set<Item>, ghost was: multiset<string>,
                      ghost head: multiset<string>, ghost tail: multiset<string>)
      returns (del: set<Item>)
      requires Moving(Delta(groupmap, add, del0), was, head + (multiset(groups) + tail), multiset(groups) + tail)
      modifies this`groupmap
      ensures Moving(Delta(groupmap, add, del), was, head + tail, tail)
      ensures forall n :: UserItem(n) in del <==> UserItem(n) in del0
    {
      hide Moving;
      del := del0;
      assert groups[0..] == groups;
      for j := 0 to |groups|
        invariant var rest := multiset(groups[j..]) + tail; Moving(Delta(groupmap, add, del), was, head + rest, rest)
        invariant forall n :: UserItem(n) in del <==> UserItem(n) in del0
      {
        var g := groups[j];
        ghost var rest := multiset(groups[j..]) + tail;
        DropStep(groups, j, head, tail);
        DropGroupMoves(Delta(groupmap, add, del), was, head + rest, rest, g);
        if groupmap[g] - 1 == 0 {
          groupmap := groupmap - {g};
          del := del + {GroupItem(g)};
        } else {
          groupmap := groupmap[g := groupmap[g] - 1];
        }
      }
      assert multiset(groups[|groups|..]) + tail == tail;
    }

    /** A group loop of slotMinMaxUID for a user who is newly in range. */
    method AddGroups(groups: seq<string>, add0: set<Item>, ghost del: set<Item>, ghost was: multiset<string>,
                     ghost head: multiset<string>, ghost tail: multiset<string>)
      returns (add: set<Item>)
      requires Moving(Delta(groupmap, add0, del), was, head + tail, tail)
      modifies this`groupmap
      ensures Moving(Delta(groupmap, add, del), was, (head + multiset(groups)) + tail, tail)
      ensures forall n :: UserItem(n) in add <==> UserItem(n) in add0
    {
      hide Moving;
      add := add0;
      assert head + multiset(groups[..0]) == head;
      for j := 0 to |groups|
        invariant Moving(Delta(groupmap, add, del), was, (head + multiset(groups[..j])) + tail, tail)
        invariant forall n :: UserItem(n) in add <==> UserItem(n) in add0
      {
        var g := groups[j];
        AddStep(groups, j, head, tail);
        AddGroupMoves(Delta(groupmap, add, del), was, (head + multiset(groups[..j])) + tail, tail, g);
        if g !in groupmap {
          groupmap := groupmap[g := 1];
          add := add + {GroupItem(g)};
        } else {
          groupmap := groupmap[g := groupmap[g] + 1];
        }
      }
      assert groups[..|groups|] == groups;
    }

    /** One user of slotMinMaxUID. */
    method MoveUser(i: nat, min: int, max: int, add0: set<Item>, del0: set<Item>, ghost was: multiset<string>)
      returns (add: set<Item>, del: set<Item>)
      requires i < |usermap|
      requires MovingAt(usermap, i, minshowuid, maxshowuid, min, max, Delta(groupmap, add0, del0), was)
      modifies this`groupmap
      ensures MovingAt(usermap, i + 1, minshowuid, maxshowuid, min, max, Delta(groupmap, add, del), was)
    {
      hide Moving, Held;
      var u := usermap[i];
      ghost var head, tail := Held(usermap[..i], min, max), Held(usermap[i+1..], minshowuid, maxshowuid);
      add, del := add0, del0;
      HeldNext(usermap, i, min, max);
      HeldNext(usermap, i, minshowuid, maxshowuid);
      MovedNext(usermap, i, minshowuid, maxshowuid, min, max);
      if u.uid == 0 {
        RestShrinks(Delta(groupmap, add, del), was, head, multiset(u.groups), tail);
      } else if InRange(u.uid, minshowuid, maxshowuid) && !InRange(u.uid, min, max) {
        del := del + {UserItem(u.name)};
        ghost var rest := multiset(u.groups) + tail;
        AddingUser(Delta(groupmap, add0, del0), was, head + rest, rest, u.name);
        del := DropGroups(u.groups, add, del, was, head, tail);
        assert head + multiset{} == head;
      } else if InRange(u.uid, min, max) && !InRange(u.uid, minshowuid, maxshowuid) {
        add := add + {UserItem(u.name)};
        assert multiset{} + tail == tail;
        AddingUser(Delta(groupmap, add0, del0), was, head + tail, tail, u.name);
        add := AddGroups(u.groups, add, del, was, head, tail);
      } else if InRange(u.uid, min, max) {
        RestShrinks(Delta(groupmap, add, del), was, head, multiset(u.groups), tail);
      } else {
        assert multiset{} + tail == tail && head + multiset{} == head;
      }
    }

    /** The two signals that slotMinMaxUID emits, in order. */
    method EmitChanges(add: set<Item>, del: set<Item>)
      modifies this`listed
      ensures forall i :: listed[i] == (if i in del then 0 else old(listed)[i]) + multiset(add)[i]
    {
      DelUsers(del);
      AddUsers(add);
    }

    method SlotMinMaxUID(min: int, max: int)
      requires Valid()
      modifies this
      ensures Valid() && minshowuid == min && maxshowuid == max && updateOK == old(updateOK)
      ensures !updateOK ==> groupmap == old(groupmap) && listed == old(listed)
    {
      hide Moving, MovingAt, Listing, Held, Counted, Moved;
      if updateOK {
        var add: set<Item>, del: set<Item> := {}, {};
        ghost var was := Held(usermap, minshowuid, maxshowuid);
        MovingStarts(usermap, minshowuid, maxshowuid, min, max, groupmap);
        for i := 0 to |usermap|
          invariant MovingAt(usermap, i, minshowuid, maxshowuid, min, max, Delta(groupmap, add, del), was)
          invariant listed == old(listed) && minshowuid == old(minshowuid) && maxshowuid == old(maxshowuid)
          invariant updateOK
        {
          add, del := MoveUser(i, min, max, add, del, was);
        }
        MovingEnds(usermap, minshowuid, maxshowuid, min, max, Delta(groupmap, add, del));
        EmitChanges(add, del);
        ListAgrees(usermap, old(minshowuid), old(maxshowuid), min, max, Delta(groupmap, add, del), old(listed), listed);
      }
      minshowuid := min;
      maxshowuid := max;
    }
  }

  lemma DropStep(groups: seq<string>, j: nat, head: multiset<string>, tail: multiset<string>)
    requires j < |groups|
    ensures var g := groups[j]; var rest := multiset(groups[j..]) + tail;
      && g in rest && rest - multiset{g} == multiset(groups[j+1..]) + tail
      && (head + rest) - multiset{g} == head + (multiset(groups[j+1..]) + tail)
  {
    assert groups[j..] == [groups[j]] + groups[j+1..];
    assert multiset(groups[j..]) == multiset{groups[j]} + multiset(groups[j+1..]);
  }

  lemma AddStep(groups: seq<string>, j: nat, head: multiset<string>, tail: multiset<string>)
    requires j < |groups|
    ensures ((head + multiset(groups[..j])) + tail) + multiset{groups[j]} == (head + multiset(groups[..j+1])) + tail
  {
    assert groups[..j+1] == groups[..j] + [groups[j]];
  }

  lemma RestShrinks(d: Delta, was: multiset<string>, head: multiset<string>, own: multiset<string>,
                    tail: multiset<string>)
    requires Moving(d, was, head + (own + tail), own + tail)
    ensures Moving(d, was, (head + own) + tail, tail)
  {
    assert (head + own) + tail == head + (own + tail);
    forall g ensures GroupOk(d, was, (head + own) + tail, tail, g) {
      assert GroupOk(d, was, head + (own + tail), own + tail, g);
    }
  }

  lemma AddingUser(d: Delta, was: multiset<string>, held: multiset<string>, rest: multiset<string>, name: string)
    requires Moving(d, was, held, rest)
    ensures Moving(d.(add := d.add + {UserItem(name)}), was, held, rest)
    ensures Moving(d.(del := d.del + {UserItem(name)}), was, held, rest)
  {
    forall g
      ensures GroupOk(d.(add := d.add + {UserItem(name)}), was, held, rest, g)
      ensures GroupOk(d.(del := d.del + {UserItem(name)}), was, held, rest, g)
    {
      assert GroupOk(d, was, held, rest, g);
    }
  }

  /** Users that come into sight when the range changes; those that go are `Moved` the other way round. */
  function Moved(us: seq<User>, min: int, max: int, min': int, max': int): set<Item> {
    set u | u in us && Shown(u, min', max') && !Shown(u, min, max) :: UserItem(u.name)
  }

  lemma MovedNext(us: seq<User>, i: nat, min: int, max: int, min': int, max': int)
    requires i < |us|
    ensures Moved(us[..i+1], min, max, min', max') ==
      Moved(us[..i], min, max, min', max') +
      (if Shown(us[i], min', max') && !Shown(us[i], min, max) then {UserItem(us[i].name)} else {})
    ensures Moved(us[..i+1], min', max', min, max) ==
      Moved(us[..i], min', max', min, max) +
      (if Shown(us[i], min, max) && !Shown(us[i], min', max') then {UserItem(us[i].name)} else {})
  {
    assert us[..i+1] == us[..i] + [us[i]];
  }

  /** The users before i have been moved from the old range to the new one. */
  ghost predicate MovingAt(us: seq<User>, i: nat, min: int, max: int, min': int, max': int,
                           d: Delta, was: multiset<string>)
    requires i <= |us|
  {
    && Moving(d, was, Held(us[..i], min', max') + Held(us[i..], min, max), Held(us[i..], min, max))
    && (forall n :: UserItem(n) in d.add <==> UserItem(n) in Moved(us[..i], min, max, min', max'))
    && (forall n :: UserItem(n) in d.del <==> UserItem(n) in Moved(us[..i], min', max', min, max))
  }

  lemma MovingStarts(us: seq<User>, min: int, max: int, min': int, max': int, groupmap: map<string, nat>)
    requires Counted(groupmap, Held(us, min, max))
    ensures MovingAt(us, 0, min, max, min', max', Delta(groupmap, {}, {}), Held(us, min, max))
  {
    var was := Held(us, min, max);
    assert us[0..] == us && us[..0] == [] && multiset{} + was == was;
    forall g ensures GroupOk(Delta(groupmap, {}, {}), was, was, was, g) {}
  }

  lemma MovingEnds(us: seq<User>, min: int, max: int, min': int, max': int, d: Delta)
    requires MovingAt(us, |us|, min, max, min', max', d, Held(us, min, max))
    ensures Moving(d, Held(us, min, max), Held(us, min', max'), multiset{})
    ensures Counted(d.groupmap, Held(us, min', max'))
    ensures forall n :: UserItem(n) in d.add <==> UserItem(n) in Moved(us, min, max, min', max')
    ensures forall n :: UserItem(n) in d.del <==> UserItem(n) in Moved(us, min', max', min, max)
  {
    assert us[..|us|] == us && us[|us|..] == [];
    assert Held(us, min', max') + multiset{} == Held(us, min', max');
  }

  lemma UserAgrees(us: seq<User>, min: int, max: int, min': int, max': int, n: string)
    requires UniqueNames(us)
    ensures var i := UserItem(n);
      && (i in UserItems(us, min', max') <==>
            || i in Moved(us, min, max, min', max')
            || (i in UserItems(us, min, max) && i !in Moved(us, min', max', min, max)))
      && (i in Moved(us, min, max, min', max') ==> i !in UserItems(us, min, max))
  {
    forall u, v | u in us && v in us && u.name == v.name ensures u == v {
      var a :| 0 <= a < |us| && us[a] == u;
      var b :| 0 <= b < |us| && us[b] == v;
      assert a < b || b < a || a == b;
    }
  }

  lemma ListAgrees(us: seq<User>, min: int, max: int, min': int, max': int, d: Delta,
                   listed: multiset<Item>, listed': multiset<Item>)
    requires UniqueNames(us) && Moving(d, Held(us, min, max), Held(us, min', max'), multiset{})
    requires forall n :: UserItem(n) in d.add <==> UserItem(n) in Moved(us, min, max, min', max')
    requires forall n :: UserItem(n) in d.del <==> UserItem(n) in Moved(us, min', max', min, max)
    requires listed == multiset(Listing(us, min, max))
    requires forall i :: listed'[i] == (if i in d.del then 0 else listed[i]) + multiset(d.add)[i]
    ensures listed' == multiset(Listing(us, min', max'))
  {
    hide Moving, Moved, Held;
    forall i ensures listed'[i] == multiset(Listing(us, min', max'))[i] {
      match i {
        case UserItem(n) => UserAgrees(us, min, max, min', max', n);
        case GroupItem(g) => GroupsAgree(d, Held(us, min, max), Held(us, min', max'), g);
      }
    }
  }

  lemma NothingYet(groupmap: map<string, nat>, us: seq<User>, min: int, max: int)
    requires groupmap == map[]
    ensures Counted(groupmap, Held(us[..0], min, max)) && Listing(us[..0], min, max) == {}
  {}

  lemma UserItemsNext(us: seq<User>, i: nat, min: int, max: int)
    requires i < |us|
    ensures UserItems(us[..i+1], min, max) ==
      UserItems(us[..i], min, max) + (if Shown(us[i], min, max) then {UserItem(us[i].name)} else {})
  {
    assert us[..i+1] == us[..i] + [us[i]];
  }
}
