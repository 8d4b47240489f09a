/**
 * The bit mixing of the daemon: addEntropy of genauth.c, which stirs words into a
 * pool, and crc32s of sessreg.c. Both are built on the CRC-32 polynomial.
 */
module Entropy {
  /** The polynomial of section 8 of RFC 1952, bits reversed. */
  const POLY: bv32 := 0xedb8_8320

  /** Shift out a bit, and apply the polynomial if it was set. */
  function CrcBit(w: bv32): bv32 {
    (w >> 1) ^ (if w & 1 == 1 then POLY else 0)
  }

  /** Nothing is lost in a step: the polynomial's top bit tells which case it was. */
  lemma CrcBitInjective(a: bv32, b: bv32)
    requires CrcBit(a) == CrcBit(b)
    ensures a == b
  {}

  function Xor(a: bv32, b: bv32): bv32 {
    a ^ b
  }

  lemma XorCancels(a: bv32, b: bv32, c: bv32)
    ensures Xor(a, b) == Xor(a, c) ==> b == c
    ensures Xor(b, a) == Xor(c, a) ==> b == c
  {}

  // ----- addEntropy -----

  /** twist_table */
  function Twist(i: bv32): bv32
    requires i <= 7
  {
    if i == 0 then 0
    else if i == 1 then 0x3b6e_20c8
    else if i == 2 then 0x76dc_4190
    else if i == 3 then 0x4db2_6158
    else if i == 4 then 0xedb8_8320
    else if i == 5 then 0xd6d6_a3e8
    else if i == 6 then 0x9b64_c2b0
    else 0xa00a_e278
  }

  function Twisted(w: bv32): bv32 {
    (w >> 3) ^ Twist(w & 7)
  }

  /** The table is three bit-serial steps at once. */
  lemma TwistedIsThreeBits(w: bv32)
    ensures Twisted(w) == CrcBit(CrcBit(CrcBit(w)))
  {
    var i := w & 7;
    if i == 0 {} else if i == 1 {} else if i == 2 {} else if i == 3 {}
    else if i == 4 {} else if i == 5 {} else if i == 6 {} else {}
  }

  lemma TwistedInjective(a: bv32, b: bv32)
    requires Twisted(a) == Twisted(b)
    ensures a == b
  {
    TwistedIsThreeBits(a);
    TwistedIsThreeBits(b);
    hide CrcBit, Twisted;
    CrcBitInjective(CrcBit(CrcBit(a)), CrcBit(CrcBit(b)));
    CrcBitInjective(CrcBit(a), CrcBit(b));
    CrcBitInjective(a, b);
  }

  /** Shifting a word by its whole width gives 0 here, so that rotating by 0 changes nothing. */
  function Rotated(w: bv32, r: bv32): bv32
    requires r < 32
  {
    (w << r) | (w >> (32 - r))
  }

  function RotatedBack(w: bv32, r: bv32): bv32
    requires r < 32
  {
    (w << (32 - r)) | (w >> r)
  }

  lemma PartsBack(w: bv32, r: bv32)
    requires r < 32
    ensures Rotated(w, r) << (32 - r) == (w >> (32 - r)) << (32 - r)
    ensures Rotated(w, r) >> r == (w << r) >> r
  {}

  lemma TwoParts(w: bv32, r: bv32)
    requires r < 32
    ensures ((w >> (32 - r)) << (32 - r)) | ((w << r) >> r) == w
  {}

  lemma BackAgain(w: bv32, r: bv32)
    requires r < 32
    ensures RotatedBack(Rotated(w, r), r) == w
  {
    PartsBack(w, r);
    TwoParts(w, r);
    hide Rotated;
  }

  lemma RotatedInjective(a: bv32, b: bv32, r: bv32)
    requires r < 32 && Rotated(a, r) == Rotated(b, r)
    ensures a == b
  {
    BackAgain(a, r);
    BackAgain(b, r);
    hide Rotated, RotatedBack;
  }

  /** epool, erotate and eadd_ptr */
  datatype Pool = Pool(words: seq<bv32>, rotate: bv32, ptr: nat)

  predicate PoolOk(p: Pool) {
    |p.words| == 32 && p.rotate < 32 && p.ptr < 32
  }

  /** The word before the current one, in a circle: `& 31` on the unsigned counter. */
  function Before(ptr: nat): nat {
    (ptr + 31) % 32
  }

  function Tap(words: seq<bv32>, i: nat, d: nat): bv32
    requires |words| == 32
  {
    words[(i + d) % 32]
  }

  /** A word and five others of the pool. */
  function Taps(w: bv32, words: seq<bv32>, i: nat): bv32
    requires |words| == 32
  {
    var w := Xor(Xor(w, Tap(words, i, 26)), Tap(words, i, 20));
    Xor(Xor(Xor(w, Tap(words, i, 14)), Tap(words, i, 7)), Tap(words, i, 1))
  }

  function RotateOn(r: bv32, i: nat): bv32 {
    (r + (if i != 0 then 7 else 14)) & 31
  }

  function Mixed(p: Pool, w: bv32): bv32
    requires PoolOk(p)
  {
    var i := Before(p.ptr);
    Xor(Taps(Rotated(w, p.rotate), p.words, i), p.words[i])
  }

  function AddWord(p: Pool, w: bv32): (q: Pool)
    requires PoolOk(p)
    ensures PoolOk(q)
  {
    var i := Before(p.ptr);
    RotateOnOk(p.rotate, i);
    Pool(p.words[i := Twisted(Mixed(p, w))], RotateOn(p.rotate, i), i)
  }

  function AddWords(p: Pool, input: seq<bv32>): (q: Pool)
    requires PoolOk(p)
    ensures PoolOk(q)
    decreases |input|
  {
    if input == [] then p else AddWords(AddWord(p, input[0]), input[1..])
  }

  lemma RotateOnOk(r: bv32, i: nat)
    ensures RotateOn(r, i) < 32
  {}

  lemma RotateOnInjective(r: bv32, s: bv32, i: nat)
    requires r < 32 && s < 32 && RotateOn(r, i) == RotateOn(s, i)
    ensures r == s
  {}

  lemma SameTaps(w: bv32, a: seq<bv32>, b: seq<bv32>, i: nat)
    requires |a| == |b| == 32 && i < 32 && forall j :: 0 <= j < 32 && j != i ==> a[j] == b[j]
    ensures Taps(w, a, i) == Taps(w, b, i)
  {}

  /** The same word, rotation and place: only the word at that place can make a difference. */
  lemma MixedTells(p: Pool, q: Pool, w: bv32)
    requires PoolOk(p) && PoolOk(q) && p.rotate == q.rotate && p.ptr == q.ptr
    requires forall j :: 0 <= j < 32 && j != Before(p.ptr) ==> p.words[j] == q.words[j]
    requires Mixed(p, w) == Mixed(q, w)
    ensures p.words == q.words
  {
    hide Taps, Rotated, Xor;
    var i := Before(p.ptr);
    var r := Rotated(w, p.rotate);
    SameTaps(r, p.words, q.words, i);
    XorCancels(Taps(r, p.words, i), p.words[i], q.words[i]);
  }

  lemma SamePlace(p: Pool, q: Pool, w: bv32)
    requires PoolOk(p) && PoolOk(q) && AddWord(p, w) == AddWord(q, w)
    ensures p.ptr == q.ptr && p.rotate == q.rotate
  {
    hide Mixed, Twisted;
    RotateOnInjective(p.rotate, q.rotate, Before(p.ptr));
  }

  /** Stirring in a word can be undone by whoever knows the word. */
  lemma AddWordInjective(p: Pool, q: Pool, w: bv32)
    requires PoolOk(p) && PoolOk(q) && AddWord(p, w) == AddWord(q, w)
    ensures p == q
  {
    SamePlace(p, q, w);
    hide Mixed, Twisted, RotateOn;
    var i := Before(p.ptr);
    var p', q' := AddWord(p, w).words, AddWord(q, w).words;
    forall j | 0 <= j < 32 && j != i ensures p.words[j] == q.words[j] { assert p'[j] == q'[j]; }
    assert p'[i] == q'[i];
    TwistedInjective(Mixed(p, w), Mixed(q, w));
    MixedTells(p, q, w);
  }

  /** No input makes two pools equal that were not: what was stirred in before is never lost. */
  lemma {:induction false} AddWordsInjective(p: Pool, q: Pool, input: seq<bv32>)
    requires PoolOk(p) && PoolOk(q) && AddWords(p, input) == AddWords(q, input)
    ensures p == q
    decreases |input|
  {
    if input != [] {
      hide AddWord;
      AddWordsInjective(AddWord(p, input[0]), AddWord(q, input[0]), input[1..]);
      AddWordInjective(p, q, input[0]);
    }
  }

  /** The word written for a given input tells the input. */
  lemma WordTells(p: Pool, v: bv32, w: bv32)
    requires PoolOk(p) && AddWord(p, v).words[Before(p.ptr)] == AddWord(p, w).words[Before(p.ptr)]
    ensures v == w
  {
    hide Twisted, Taps, Rotated, RotateOn, Xor;
    var i := Before(p.ptr);
    var rv, rw := Rotated(v, p.rotate), Rotated(w, p.rotate);
    TwistedInjective(Mixed(p, v), Mixed(p, w));
    XorCancels(p.words[i], Taps(rv, p.words, i), Taps(rw, p.words, i));
    TapsTell(rv, rw, p.words, i);
    RotatedInjective(v, w, p.rotate);
  }

  lemma TapsTell(v: bv32, w: bv32, words: seq<bv32>, i: nat)
    requires |words| == 32 && Taps(v, words, i) == Taps(w, words, i)
    ensures v == w
  {
    hide Xor, Tap;
    var a, b, c, d, e := Tap(words, i, 26), Tap(words, i, 20), Tap(words, i, 14), Tap(words, i, 7), Tap(words, i, 1);
    XorCancels(e, Xor(Xor(Xor(Xor(v, a), b), c), d), Xor(Xor(Xor(Xor(w, a), b), c), d));
    XorCancels(d, Xor(Xor(Xor(v, a), b), c), Xor(Xor(Xor(w, a), b), c));
    XorCancels(c, Xor(Xor(v, a), b), Xor(Xor(w, a), b));
    XorCancels(b, Xor(v, a), Xor(w, a));
    XorCancels(a, v, w);
  }

  /** The n words before ptr are the ones that n more inputs write. */
  predicate Untouched(ptr: nat, n: nat, j: nat) {
    j < 32 && (ptr + 32 - j - 1) % 32 >= n
  }

  lemma {:induction false} OthersKept(p: Pool, input: seq<bv32>, j: nat)
    requires PoolOk(p) && p.ptr < 32 && |input| <= 32 && Untouched(p.ptr, |input|, j)
    ensures AddWords(p, input).words[j] == p.words[j]
    decreases |input|
  {
    hide Twisted, Mixed, RotateOn;
    if input != [] {
      var q := AddWord(p, input[0]);
      assert q.ptr == Before(p.ptr);
      StillUntouched(p.ptr, |input|, j);
      OthersKept(q, input[1..], j);
    }
  }

  lemma StillUntouched(ptr: nat, n: nat, j: nat)
    requires ptr < 32 && 0 < n <= 32 && Untouched(ptr, n, j)
    ensures Untouched(Before(ptr), n - 1, j) && j != Before(ptr)
  {}

  lemma {:induction false} SameLengthTells(p: Pool, v: seq<bv32>, w: seq<bv32>)
    requires PoolOk(p) && |v| == |w| <= 32
    ensures AddWords(p, v) == AddWords(p, w) ==> v == w
    decreases |v|
  {
    if v != [] && AddWords(p, v) == AddWords(p, w) {
      var i := Before(p.ptr);
      var pv, pw := AddWord(p, v[0]), AddWord(p, w[0]);
      OthersKept(pv, v[1..], i);
      OthersKept(pw, w[1..], i);
      WordTells(p, v[0], w[0]);
      hide AddWord;
      SameLengthTells(pv, v[1..], w[1..]);
      assert v == [v[0]] + v[1..] && w == [w[0]] + w[1..];
    }
  }

  /** The place n words, at most 32, before ptr. */
  function WordsBefore(ptr: nat, n: nat): nat
    requires n <= 32
  {
    (ptr + 32 - n) % 32
  }

  lemma {:induction false} PlaceAfter(p: Pool, input: seq<bv32>)
    requires PoolOk(p) && |input| <= 32
    ensures AddWords(p, input).ptr == WordsBefore(p.ptr, |input|)
    decreases |input|
  {
    hide Twisted, Mixed, RotateOn;
    if input != [] { PlaceAfter(AddWord(p, input[0]), input[1..]); }
  }

  predicate OddRotation(r: bv32) {
    r & 1 == 1
  }

  lemma TurnByOne(r: bv32, i: nat)
    ensures OddRotation(RotateOn(r, i)) <==> OddRotation(r) == (i == 0)
  {}

  /** Whether n words, at most 32, take the place at the front of the pool, where the turn is even. */
  function Wraps(ptr: nat, n: nat): nat {
    if n >= (if ptr == 0 then 32 else ptr) then 1 else 0
  }

  predicate OddTurns(ptr: nat, n: nat) {
    (n - Wraps(ptr, n)) % 2 == 1
  }

  lemma OddTurnsNext(ptr: nat, n: nat)
    requires ptr < 32 && 0 < n <= 32
    ensures OddTurns(ptr, n) <==> OddTurns(Before(ptr), n - 1) == (Before(ptr) == 0)
  {}

  lemma NoTurns(ptr: nat)
    ensures !OddTurns(ptr, 0)
  {}

  lemma {:induction false} RotationAfter(p: Pool, input: seq<bv32>)
    requires PoolOk(p) && |input| <= 32
    ensures OddRotation(AddWords(p, input).rotate) <==> OddRotation(p.rotate) != OddTurns(p.ptr, |input|)
    decreases |input|
  {
    hide Twisted, Mixed, RotateOn, OddRotation, OddTurns, Before;
    if input == [] {
      NoTurns(p.ptr);
    } else {
      RotationAfter(AddWord(p, input[0]), input[1..]);
      TurnByOne(p.rotate, Before(p.ptr));
      OddTurnsNext(p.ptr, |input|);
    }
  }

  /** A whole round comes back to the same place, but not with the same rotation. */
  lemma RoundShows(p: Pool, w: seq<bv32>)
    requires PoolOk(p) && |w| == 32
    ensures AddWords(p, w) != p
  {
    hide AddWords, OddRotation, OddTurns;
    RotationAfter(p, w);
    RoundIsOdd(p.ptr);
  }

  lemma RoundIsOdd(ptr: nat)
    requires ptr < 32
    ensures OddTurns(ptr, 32)
  {}

  lemma PlacesDiffer(ptr: nat, m: nat, n: nat)
    requires ptr < 32 && m < n <= 32 && !(m == 0 && n == 32)
    ensures WordsBefore(ptr, m) != WordsBefore(ptr, n)
  {}

  lemma LengthTells(p: Pool, v: seq<bv32>, w: seq<bv32>)
    requires PoolOk(p) && |v| < |w| <= 32
    ensures AddWords(p, v) != AddWords(p, w)
  {
    hide AddWords, WordsBefore;
    if |w| == 32 && v == [] {
      RoundShows(p, w);
      NoWords(p);
    } else {
      PlacesDiffer(p.ptr, |v|, |w|);
      PlaceAfter(p, v);
      PlaceAfter(p, w);
    }
  }

  lemma NoWords(p: Pool)
    requires PoolOk(p)
    ensures AddWords(p, []) == p
  {}

  /** Up to a pool's worth of words, different inputs leave different pools. */
  lemma InputTells(p: Pool, v: seq<bv32>, w: seq<bv32>)
    requires PoolOk(p) && |v| <= 32 && |w| <= 32
    ensures AddWords(p, v) == AddWords(p, w) ==> v == w
  {
    hide AddWords;
    if |v| == |w| { SameLengthTells(p, v, w); }
    else if |v| < |w| { LengthTells(p, v, w); }
    else { LengthTells(p, w, v); }
  }

  class EntropyPool {
    const epool: array<bv32>
    var erotate: bv32
    var eadd_ptr: nat

    ghost predicate Valid()
      reads this, epool
    {
      epool.Length == 32 && PoolOk(State())
    }

    ghost function State(): Pool
      reads this, epool
    {
      Pool(epool[..], erotate, eadd_ptr)
    }

    constructor ()
      ensures Valid() && fresh(epool) && State() == Pool(seq(32, _ => 0), 0, 0)
    {
      epool := new bv32[32](_ => 0);
      erotate, eadd_ptr := 0, 0;
      new;
      assert epool[..] == seq(32, _ => 0);
    }

    method AddEntropy(input: seq<bv32>)
      requires Valid()
      modifies this`erotate, this`eadd_ptr, epool
      ensures Valid() && State() == AddWords(old(State()), input)
    {
      hide AddWord;
      assert input[0..] == input;
      for n := 0 to |input|
        invariant Valid() && AddWords(State(), input[n..]) == AddWords(old(State()), input)
      {
        ghost var rest := input[n..];
        assert rest[0] == input[n] && rest[1..] == input[n+1..];
        AddOne(input[n]);
      }
    }

    /** The body of the loop in addEntropy. */
    method AddOne(input: bv32)
      requires Valid()
      modifies this`erotate, this`eadd_ptr, epool
      ensures Valid() && State() == AddWord(old(State()), input)
    {
      hide Twisted, Rotated, RotateOn, Taps, Xor;
      ghost var p := State();
      RotateOnOk(erotate, (eadd_ptr + 31) % 32);
      var w := Rotated(input, erotate);
      var i := (eadd_ptr + 31) % 32;
      eadd_ptr := i;
      erotate := RotateOn(erotate, i);
      w := Stir(w, i);
      epool[i] := Twisted(w);
      assert epool[..] == p.words[i := Twisted(w)];
    }

    method Stir(w0: bv32, i: nat) returns (w: bv32)
      requires epool.Length == 32 && i < 32
      ensures w == Xor(Taps(w0, epool[..], i), epool[i])
    {
      w := w0;
      w := w ^ epool[(i + 26) % 32];
      w := w ^ epool[(i + 20) % 32];
      w := w ^ epool[(i + 14) % 32];
      w := w ^ epool[(i + 7) % 32];
      w := w ^ epool[(i + 1) % 32];
      w := w ^ epool[i];
    }
  }

  // ----- crc32s -----

  function Half(c: bv32): bv32 {
    c >> 1
  }

  predicate Even(c: bv32) {
    c & 1 == 0
  }

  /** The bit-serial register: one bit of the message at a time, the lowest of a byte first. */
  function Feed(reg: bv32, bit: bv32): bv32 {
    (reg >> 1) ^ (if (reg ^ bit) & 1 == 1 then POLY else 0)
  }

  function FeedBits(reg: bv32, b: bv32, n: nat): bv32
    decreases n
  {
    if n == 0 then reg else FeedBits(Feed(reg, b), Half(b), n - 1)
  }

  /** The register after a whole message. */
  function Register(reg: bv32, text: seq<bv8>): bv32
    decreases |text|
  {
    if text == [] then reg else Register(FeedBits(reg, text[0] as bv32, 8), text[1..])
  }

  function CrcBits(w: bv32, n: nat): bv32
    decreases n
  {
    if n == 0 then w else CrcBits(CrcBit(w), n - 1)
  }

  /** c shifted down n places */
  function Down(c: bv32, n: nat): bv32
    decreases n
  {
    if n == 0 then c else Half(Down(c, n - 1))
  }

  lemma {:induction false} DownFirst(c: bv32, n: nat)
    ensures Down(c, n + 1) == Down(Half(c), n)
    decreases n
  {
    if n > 0 { DownFirst(c, n - 1); }
  }

  lemma FeedStep(reg: bv32, c: bv32)
    ensures Xor(Feed(reg, c), Half(c)) == CrcBit(Xor(reg, c))
  {
    FeedStepBits(reg, c);
    hide Feed, CrcBit;
  }

  lemma FeedStepBits(reg: bv32, c: bv32)
    ensures Feed(reg, c) ^ (c >> 1) == CrcBit(reg ^ c)
  {}

  lemma ShiftStep(x: bv32, c: bv32)
    requires Even(c)
    ensures CrcBit(Xor(x, c)) == Xor(CrcBit(x), Half(c))
  {
    ShiftStepBits(x, c);
    hide CrcBit;
  }

  lemma ShiftStepBits(x: bv32, c: bv32)
    requires c & 1 == 0
    ensures CrcBit(x ^ c) == CrcBit(x) ^ (c >> 1)
  {
    if x & 1 == 1 {
      assert (x ^ c) & 1 == 1;
    } else {
      assert (x ^ c) & 1 != 1;
    }
  }

  /** Feeding bits one by one and adding them all at once differ by the bits not yet used. */
  lemma {:induction false} FeedAtOnce(reg: bv32, b: bv32, n: nat)
    ensures Xor(FeedBits(reg, b, n), Down(b, n)) == CrcBits(Xor(reg, b), n)
    decreases n
  {
    hide Feed, Half, CrcBit, Xor;
    if n > 0 {
      FeedAtOnce(Feed(reg, b), Half(b), n - 1);
      FeedStep(reg, b);
      DownFirst(b, n - 1);
    }
  }

  /** Bits above those that are fed are only shifted. */
  lemma {:induction false} HighBitsShift(x: bv32, c: bv32, n: nat)
    requires forall k :: 0 <= k < n ==> Even(Down(c, k))
    ensures CrcBits(Xor(x, c), n) == Xor(CrcBits(x, n), Down(c, n))
    decreases n
  {
    hide Even, Half, CrcBit, Xor;
    if n > 0 {
      assert Even(Down(c, 0));
      ShiftStep(x, c);
      forall k | 0 <= k < n - 1 ensures Even(Down(Half(c), k)) { DownFirst(c, k); }
      HighBitsShift(CrcBit(x), Half(c), n - 1);
      DownFirst(c, n - 1);
    }
  }

  function Low(reg: bv32): bv32 {
    reg & 255
  }

  function High(reg: bv32): bv32 {
    reg >> 8
  }

  /** The eight bits of a byte, fed one by one, in one go on the low end of the register. */
  lemma ByteAtOnce(reg: bv32, b: bv32)
    requires b <= 255
    ensures FeedBits(reg, b, 8) == Xor(High(reg), CrcBits(Xor(Low(reg), b), 8))
  {
    var c, x := reg & 0xffff_ff00, Xor(Low(reg), b);
    DownIs(b);
    DownIs(c);
    ByteShifts(b);
    HighShifts(reg);
    HighAndLow(reg, b);
    hide CrcBits, FeedBits, Down, Xor, Even;
    FeedAtOnce(reg, b, 8);
    HighBitsShift(x, c, 8);
    XorFacts(FeedBits(reg, b, 8), CrcBits(x, 8), High(reg));
  }

  lemma XorFacts(a: bv32, b: bv32, c: bv32)
    ensures Xor(a, 0) == a && Xor(b, c) == Xor(c, b)
  {}

  lemma ByteShifts(b: bv32)
    requires b <= 255
    ensures b >> 8 == 0
  {}

  lemma HighShifts(reg: bv32)
    ensures (reg & 0xffff_ff00) & 255 == 0 && (reg & 0xffff_ff00) >> 8 == High(reg)
  {}

  lemma HighAndLow(reg: bv32, b: bv32)
    ensures Xor(Xor(Low(reg), b), reg & 0xffff_ff00) == Xor(reg, b)
  {}

  lemma DownIs(c: bv32)
    ensures Down(c, 8) == c >> 8
    ensures c & 255 == 0 ==> forall k :: 0 <= k < 8 ==> Even(Down(c, k))
  {
    Halves(c);
    hide Half, Even;
    assert Down(c, 1) == c >> 1;
    assert Down(c, 2) == c >> 2;
    assert Down(c, 3) == c >> 3;
    assert Down(c, 4) == c >> 4;
    assert Down(c, 5) == c >> 5;
    assert Down(c, 6) == c >> 6;
    assert Down(c, 7) == c >> 7;
    LowBits(c);
    forall k | 0 <= k < 8 ensures c & 255 == 0 ==> Even(Down(c, k)) {}
  }

  lemma Halves(c: bv32)
    ensures Half(c) == c >> 1 && Half(c >> 1) == c >> 2 && Half(c >> 2) == c >> 3 && Half(c >> 3) == c >> 4
    ensures Half(c >> 4) == c >> 5 && Half(c >> 5) == c >> 6 && Half(c >> 6) == c >> 7 && Half(c >> 7) == c >> 8
  {}

  lemma LowBits(c: bv32)
    ensures c & 255 == 0 ==> Even(c) && Even(c >> 1) && Even(c >> 2) && Even(c >> 3)
    ensures c & 255 == 0 ==> Even(c >> 4) && Even(c >> 5) && Even(c >> 6) && Even(c >> 7)
  {}

  /** The inner loop of crc32s. */
  method EightBits(w0: bv32) returns (w: bv32)
    ensures w == CrcBits(w0, 8)
  {
    hide CrcBit;
    w := w0;
    for n := 0 to 8
      invariant CrcBits(w, 8 - n) == CrcBits(w0, 8)
    {
      NegIsMask(w);
      w := (w >> 1) ^ ((0 - (w & 1)) & POLY);
    }
  }

  lemma NegIsMask(w: bv32)
    ensures (w >> 1) ^ ((0 - (w & 1)) & POLY) == CrcBit(w)
  {
    if w & 1 == 1 {
      assert (0 - (w & 1)) & POLY == POLY;
    } else {
      assert w & 1 == 0;
      assert (0 - (w & 1)) & POLY == 0;
    }
  }

  /** The body of the loop in crc32s. */
  method CrcOne(crc0: bv32, b: bv32) returns (crc: bv32)
    requires b <= 255
    ensures crc == FeedBits(crc0, b, 8)
  {
    hide FeedBits, CrcBits, Xor, Low, High;
    ByteAtOnce(crc0, b);
    var w := Xor(Low(crc0), b);
    w := EightBits(w);
    crc := Xor(High(crc0), w);
  }

  method Crc32s(str: seq<bv8>) returns (crc: bv32)
    ensures crc == Register(0xffff_ffff, str)
  {
    hide FeedBits, CrcBits;
    crc := 0xffff_ffff;
    assert str[0..] == str;
    for i := 0 to |str|
      invariant Register(crc, str[i..]) == Register(0xffff_ffff, str)
    {
      assert str[i..][0] == str[i] && str[i..][1..] == str[i+1..];
      crc := CrcOne(crc, str[i] as bv32);
    }
  }
}
