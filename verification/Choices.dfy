/**
 * The indirect hosts of choose.c: clients that were sent a chooser and, once the
 * user has picked one, the host they asked for. Entries expire.
 *
 * The code keeps a list and stops at the first entry that is still alive. It is
 * shown to be a map from clients to choices whose expired entries are dropped.
 */
module Choices {
  import opened Wrappers

  type Bytes = seq<nat>

  datatype Key = Key(client: Bytes, port: Bytes, ctype: nat)

  datatype ChoiceRec = ChoiceRec(key: Key, choice: Option<Bytes>, timeout: int)

  // ----- The list -----

  function Find(cs: seq<ChoiceRec>, k: Key): (r: Option<nat>)
    ensures r.Some? ==> r.value < |cs| && cs[r.value].key == k && forall j :: 0 <= j < r.value ==> cs[j].key != k
    ensures r.None? ==> forall j :: 0 <= j < |cs| ==> cs[j].key != k
  {
    if cs == [] then None
    else if cs[0].key == k then Some(0)
    else
      var r := Find(cs[1..], k);
      if r.Some? then Some(r.value + 1) else None
  }

  function Without(cs: seq<ChoiceRec>, i: nat): seq<ChoiceRec>
    requires i < |cs|
  {
    cs[..i] + cs[i+1..]
  }

  function Chosen(cs: seq<ChoiceRec>, k: Key): Option<Bytes> {
    var r := Find(cs, k);
    if r.Some? then cs[r.value].choice else None
  }

  /** Registered anew, a client moves to the end; an earlier choice is kept if no other is given. */
  function Registered(cs: seq<ChoiceRec>, k: Key, choice: Option<Bytes>, timeout: int): seq<ChoiceRec> {
    var r := Find(cs, k);
    var rest := if r.Some? then Without(cs, r.value) else cs;
    rest + [ChoiceRec(k, if choice.Some? then choice else Chosen(cs, k), timeout)]
  }

  function Checked(cs: seq<ChoiceRec>, k: Key): (seq<ChoiceRec>, bool) {
    var r := Find(cs, k);
    if r.Some? then (Without(cs, r.value), cs[r.value].choice.None?) else (cs, false)
  }

  /** From the front, up to the first entry that is alive. */
  function Disposed(cs: seq<ChoiceRec>, now: int): seq<ChoiceRec> {
    if cs == [] || cs[0].timeout > now then cs else Disposed(cs[1..], now)
  }

  /** The next time something expires; None is TO_INF. */
  function NextTimeout(cs: seq<ChoiceRec>): Option<int> {
    if cs == [] then None else Some(cs[0].timeout)
  }

  ghost predicate Unique(cs: seq<ChoiceRec>) {
    forall i, j :: 0 <= i < j < |cs| ==> cs[i].key != cs[j].key
  }

  ghost predicate Sorted(cs: seq<ChoiceRec>) {
    forall i, j :: 0 <= i < j < |cs| ==> cs[i].timeout <= cs[j].timeout
  }

  /** What the list keeps, given the time and how long an entry lives. */
  ghost predicate Ok(cs: seq<ChoiceRec>, now: int, life: int) {
    Unique(cs) && Sorted(cs) && forall i :: 0 <= i < |cs| ==> cs[i].timeout <= now + life
  }

  // ----- The map -----

  datatype Deal = Deal(choice: Option<Bytes>, timeout: int)

  ghost predicate Holds(cs: seq<ChoiceRec>, k: Key) {
    exists i :: 0 <= i < |cs| && cs[i].key == k
  }

  /** The map has the entries of the list and no others. */
  ghost predicate Shows(cs: seq<ChoiceRec>, m: map<Key, Deal>) {
    && (forall i :: 0 <= i < |cs| ==> cs[i].key in m && m[cs[i].key] == Deal(cs[i].choice, cs[i].timeout))
    && (forall k :: k in m ==> Holds(cs, k))
  }

  ghost predicate Alive(m: map<Key, Deal>, now: int, k: Key) {
    k in m && m[k].timeout > now
  }

  ghost predicate Least(m: map<Key, Deal>, t: Option<int>) {
    && (t.None? <==> m == map[])
    && (t.Some? ==> (exists k :: k in m && m[k].timeout == t.value) && forall k :: k in m ==> t.value <= m[k].timeout)
  }

  // ----- Keeping the list in order -----

  lemma LaterOk(cs: seq<ChoiceRec>, now: int, now': int, life: int)
    requires Ok(cs, now, life) && now <= now'
    ensures Ok(cs, now', life)
  {}

  lemma WithoutOk(cs: seq<ChoiceRec>, i: nat, now: int, life: int)
    requires Ok(cs, now, life) && i < |cs|
    ensures Ok(Without(cs, i), now, life) && !Holds(Without(cs, i), cs[i].key)
  {
    var ds := Without(cs, i);
    forall j | 0 <= j < |ds| ensures ds[j] == cs[if j < i then j else j + 1] {}
  }

  lemma WithoutShows(cs: seq<ChoiceRec>, i: nat, m: map<Key, Deal>)
    requires Unique(cs) && i < |cs| && Shows(cs, m)
    ensures Shows(Without(cs, i), m - {cs[i].key})
  {
    var ds, m' := Without(cs, i), m - {cs[i].key};
    forall j | 0 <= j < |ds| ensures ds[j] == cs[if j < i then j else j + 1] {}
    forall k | k in m' ensures Holds(ds, k) {
      var j :| 0 <= j < |cs| && cs[j].key == k;
      assert ds[if j < i then j else j - 1] == cs[j];
    }
  }

  lemma AppendOk(cs: seq<ChoiceRec>, c: ChoiceRec, now: int, life: int)
    requires Ok(cs, now, life) && !Holds(cs, c.key) && c.timeout == now + life
    ensures Ok(cs + [c], now, life)
  {}

  lemma AppendShows(cs: seq<ChoiceRec>, c: ChoiceRec, m: map<Key, Deal>)
    requires !Holds(cs, c.key) && Shows(cs, m)
    ensures Shows(cs + [c], m[c.key := Deal(c.choice, c.timeout)])
  {
    var ds, m' := cs + [c], m[c.key := Deal(c.choice, c.timeout)];
    assert ds[|cs|] == c;
    forall k | k in m' ensures Holds(ds, k) {
      if k != c.key {
        var j :| 0 <= j < |cs| && cs[j].key == k;
        assert ds[j] == cs[j];
      }
    }
  }

  // ----- The list is the map -----

  lemma FindHolds(cs: seq<ChoiceRec>, k: Key, m: map<Key, Deal>)
    requires Shows(cs, m)
    ensures Find(cs, k).Some? <==> k in m
    ensures Find(cs, k).None? ==> !Holds(cs, k)
    ensures k in m ==> m[k] == Deal(cs[Find(cs, k).value].choice, cs[Find(cs, k).value].timeout)
  {}

  lemma RegisterIsUpdate(cs: seq<ChoiceRec>, m: map<Key, Deal>, k: Key, choice: Option<Bytes>, now: int, life: int)
    requires Ok(cs, now, life) && Shows(cs, m)
    ensures var cs' := Registered(cs, k, choice, now + life);
      && Ok(cs', now, life)
      && Shows(cs', m[k := Deal(if choice.None? && k in m then m[k].choice else choice, now + life)])
  {
    hide Holds, Without;
    FindHolds(cs, k, m);
    var r := Find(cs, k);
    var c := ChoiceRec(k, if choice.Some? then choice else Chosen(cs, k), now + life);
    if r.Some? {
      WithoutOk(cs, r.value, now, life);
      WithoutShows(cs, r.value, m);
      hide Shows, Ok, Holds, Without;
      AppendOk(Without(cs, r.value), c, now, life);
      AppendShows(Without(cs, r.value), c, m - {k});
      assert (m - {k})[k := Deal(c.choice, c.timeout)] == m[k := Deal(c.choice, c.timeout)];
    } else {
      hide Shows, Ok, Holds;
      AppendOk(cs, c, now, life);
      AppendShows(cs, c, m);
    }
  }

  lemma CheckIsRemoval(cs: seq<ChoiceRec>, m: map<Key, Deal>, k: Key, now: int, life: int)
    requires Ok(cs, now, life) && Shows(cs, m)
    ensures var (cs', uc) := Checked(cs, k);
      Ok(cs', now, life) && Shows(cs', m - {k}) && (uc <==> k in m && m[k].choice.None?)
  {
    FindHolds(cs, k, m);
    var r := Find(cs, k);
    if r.Some? {
      WithoutOk(cs, r.value, now, life);
      WithoutShows(cs, r.value, m);
    } else {
      assert m - {k} == m;
    }
  }

  ghost predicate FirstAlive(cs: seq<ChoiceRec>, now: int, i: nat) {
    i <= |cs| && (forall j :: 0 <= j < i ==> cs[j].timeout <= now) && (i < |cs| ==> cs[i].timeout > now)
  }

  lemma {:induction false} DisposedIsTail(cs: seq<ChoiceRec>, now: int) returns (i: nat)
    ensures FirstAlive(cs, now, i) && Disposed(cs, now) == cs[i..]
  {
    if cs == [] || cs[0].timeout > now {
      i := 0;
    } else {
      i := DisposedIsTail(cs[1..], now);
      assert cs[1..][i..] == cs[i+1..];
      forall j | 0 <= j < i + 1 ensures cs[j].timeout <= now { if j > 0 { assert cs[1..][j-1] == cs[j]; } }
      i := i + 1;
    }
  }

  lemma TailOk(cs: seq<ChoiceRec>, i: nat, now: int, life: int)
    requires Ok(cs, now, life) && i <= |cs|
    ensures Ok(cs[i..], now, life)
  {
    var ds := cs[i..];
    forall j | 0 <= j < |ds| ensures ds[j] == cs[i+j] {}
  }

  lemma TailShows(cs: seq<ChoiceRec>, m: map<Key, Deal>, now: int, i: nat)
    requires Unique(cs) && Sorted(cs) && Shows(cs, m) && FirstAlive(cs, now, i)
    ensures Shows(cs[i..], map k | k in m && Alive(m, now, k) :: m[k])
  {
    var ds, m' := cs[i..], map k | k in m && Alive(m, now, k) :: m[k];
    forall j | 0 <= j < |ds| ensures ds[j].key in m' && m'[ds[j].key] == Deal(ds[j].choice, ds[j].timeout) {
      assert ds[j] == cs[i+j];
    }
    forall k | k in m' ensures Holds(ds, k) {
      var j :| 0 <= j < |cs| && cs[j].key == k;
      assert j >= i;
      assert ds[j-i] == cs[j];
    }
  }

  lemma HeadIsLeast(cs: seq<ChoiceRec>, m: map<Key, Deal>)
    requires Sorted(cs) && Shows(cs, m)
    ensures Least(m, NextTimeout(cs))
  {
    if cs == [] {
      assert m == map[];
    } else {
      assert cs[0].key in m;
      forall k | k in m ensures cs[0].timeout <= m[k].timeout {
        var j :| 0 <= j < |cs| && cs[j].key == k;
        assert j == 0 || cs[0].timeout <= cs[j].timeout;
      }
    }
  }

  /**
   * Stopping at the first live entry misses no expired one: exactly the expired ones
   * go, and the time returned is the least of those that remain.
   */
  lemma DisposeIsExpiry(cs: seq<ChoiceRec>, m: map<Key, Deal>, now: int, life: int)
    requires Ok(cs, now, life) && Shows(cs, m)
    ensures var cs' := Disposed(cs, now); var m' := map k | k in m && Alive(m, now, k) :: m[k];
      && Ok(cs', now, life) && Shows(cs', m') && Least(m', NextTimeout(cs'))
  {
    var i := DisposedIsTail(cs, now);
    TailOk(cs, i, now, life);
    TailShows(cs, m, now, i);
    HeadIsLeast(cs[i..], map k | k in m && Alive(m, now, k) :: m[k]);
  }

  // ----- Runs -----

  datatype Op =
    | Register(k: Key, choice: Option<Bytes>)
    | Check(k: Key)
    | Ask(k: Key)
    | Dispose
    | Wait(seconds: nat)

  datatype Answer = Silent | Said(uc: bool) | Told(choice: Option<Bytes>) | Due(time: Option<int>)

  datatype State = State(choices: seq<ChoiceRec>, now: int)

  function Step(s: State, op: Op, life: int): (State, Answer) {
    match op
    case Register(k, choice) => (s.(choices := Registered(s.choices, k, choice, s.now + life)), Silent)
    case Check(k) => var (cs, uc) := Checked(s.choices, k); (s.(choices := cs), Said(uc))
    case Ask(k) => (s, Told(Chosen(s.choices, k)))
    case Dispose => (s.(choices := Disposed(s.choices, s.now)), Due(NextTimeout(Disposed(s.choices, s.now))))
    case Wait(n) => (s.(now := s.now + n), Silent)
  }

  /** The map after the operation. */
  ghost function MapAfter(m: map<Key, Deal>, now: int, op: Op, life: int): map<Key, Deal> {
    match op
    case Register(k, choice) => m[k := Deal(if choice.None? && k in m then m[k].choice else choice, now + life)]
    case Check(k) => m - {k}
    case Ask(k) => m
    case Dispose => map k | k in m && Alive(m, now, k) :: m[k]
    case Wait(_) => m
  }

  /** What the operation may answer. */
  ghost predicate MapSays(m: map<Key, Deal>, now: int, op: Op, a: Answer) {
    match op
    case Register(_, _) => a == Silent
    case Check(k) => a == Said(k in m && m[k].choice.None?)
    case Ask(k) => a == Told(if k in m then m[k].choice else None)
    case Dispose => a.Due? && Least(map k | k in m && Alive(m, now, k) :: m[k], a.time)
    case Wait(_) => a == Silent
  }

  lemma StepRefines(s: State, m: map<Key, Deal>, op: Op, life: int)
    requires Ok(s.choices, s.now, life) && Shows(s.choices, m)
    ensures var (s', a) := Step(s, op, life);
      && Ok(s'.choices, s'.now, life) && Shows(s'.choices, MapAfter(m, s.now, op, life)) && MapSays(m, s.now, op, a)
  {
    hide Ok, Shows, Least, Registered, Checked, Disposed;
    match op {
      case Register(k, choice) => RegisterIsUpdate(s.choices, m, k, choice, s.now, life);
      case Check(k) => CheckIsRemoval(s.choices, m, k, s.now, life);
      case Ask(k) => FindHolds(s.choices, k, m);
      case Dispose => DisposeIsExpiry(s.choices, m, s.now, life);
      case Wait(n) => LaterOk(s.choices, s.now, s.now + n, life);
    }
  }

  /** The answers of a whole run. */
  function Answers(s: State, ops: seq<Op>, life: int): seq<Answer>
    decreases |ops|
  {
    if ops == [] then [] else [Step(s, ops[0], life).1] + Answers(Step(s, ops[0], life).0, ops[1..], life)
  }

  /** The answers are what the map, put through the same operations, says. */
  ghost predicate MapRun(m: map<Key, Deal>, now: int, ops: seq<Op>, life: int, answers: seq<Answer>)
    decreases |ops|
  {
    && |answers| == |ops|
    && (ops != [] ==>
          && MapSays(m, now, ops[0], answers[0])
          && MapRun(MapAfter(m, now, ops[0], life), if ops[0].Wait? then now + ops[0].seconds else now,
                    ops[1..], life, answers[1..]))
  }

  /** Whatever is asked in whatever order while time passes, the list answers as the map does. */
  lemma {:induction false} RunRefines(s: State, m: map<Key, Deal>, ops: seq<Op>, life: int)
    requires Ok(s.choices, s.now, life) && Shows(s.choices, m)
    ensures MapRun(m, s.now, ops, life, Answers(s, ops, life))
    decreases |ops|
  {
    if ops != [] {
      var (s', a) := Step(s, ops[0], life);
      StepRefines(s, m, ops[0], life);
      RunRefines(s', MapAfter(m, s.now, ops[0], life), ops[1..], life);
      hide Ok, Shows, MapSays, MapAfter;
      assert Answers(s, ops, life)[1..] == Answers(s', ops[1..], life);
    }
  }

  lemma FromNothing(now: int, ops: seq<Op>, life: int)
    ensures MapRun(map[], now, ops, life, Answers(State([], now), ops, life))
  {
    RunRefines(State([], now), map[], ops, life);
  }

  // ----- The code -----

  class IndirectHosts {
    var choices: seq<ChoiceRec>

    constructor ()
      ensures choices == []
    {
      choices := [];
    }

    method DisposeIndirectHosts(now: int) returns (next: Option<int>)
      modifies this
      ensures choices == Disposed(old(choices), now) && next == NextTimeout(choices)
    {
      while choices != []
        invariant Disposed(choices, now) == Disposed(old(choices), now)
        decreases |choices|
      {
        if choices[0].timeout > now { return Some(choices[0].timeout); }
        choices := choices[1..];
      }
      next := None;
    }

    method IndirectChoice(k: Key) returns (choice: Option<Bytes>)
      ensures choice == Chosen(choices, k)
    {
      var i := Locate(k);
      choice := if i < |choices| then choices[i].choice else None;
    }

    /** The search that three of the functions start with. */
    method Locate(k: Key) returns (i: nat)
      ensures var r := Find(choices, k); i == if r.Some? then r.value else |choices|
    {
      i := 0;
      while i < |choices|
        invariant i <= |choices| && forall j :: 0 <= j < i ==> choices[j].key != k
      {
        if choices[i].key == k {
          FirstFound(choices, k, i);
          return;
        }
        i := i + 1;
      }
    }

    method CheckIndirectChoice(k: Key) returns (uc: bool)
      modifies this
      ensures (choices, uc) == Checked(old(choices), k)
    {
      var i := Locate(k);
      if i == |choices| { return false; }
      uc := choices[i].choice.None?;
      choices := choices[..i] + choices[i+1..];
    }

    method RegisterIndirectChoice(k: Key, choice: Option<Bytes>, now: int, choiceTimeout: int)
      modifies this
      ensures choices == Registered(old(choices), k, choice, now + choiceTimeout)
    {
      var i := Locate(k);
      var kept: Option<Bytes> := None;
      if i < |choices| {
        kept := choices[i].choice;
        choices := choices[..i] + choices[i+1..];
      }
      if choice.Some? { kept := choice; }
      choices := choices + [ChoiceRec(k, kept, now + choiceTimeout)];
    }
  }

  lemma {:induction false} FirstFound(cs: seq<ChoiceRec>, k: Key, i: nat)
    requires i < |cs| && cs[i].key == k && forall j :: 0 <= j < i ==> cs[j].key != k
    ensures Find(cs, k) == Some(i)
  {
    var r := Find(cs, k);
    assert r.Some?;
    assert r.value < i || i < r.value || r.value == i;
  }
}
