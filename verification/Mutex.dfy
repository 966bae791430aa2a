/** The recursive wait mutex of kernel/mutex.c as a transition system: every load, store and
    compare-exchange of every thread is a step of its own, and steps interleave in any order. */
module Mutex {
  import opened Base

  // ----- the lock word: an owner address, a multiple of eight, with the state in its low bits -----

  const LOCKED: nat := 1
  const RECURSED: nat := 4
  const STATE_MASK: nat := 7

  function NewLock(td: nat, state: nat): nat { td + state % (STATE_MASK + 1) }
  function LockOwner(w: nat): nat { w - w % (STATE_MASK + 1) }
  function IsRecursed(w: nat): bool { (w / RECURSED) % 2 == 1 }
  function SetRecursed(w: nat): nat { if IsRecursed(w) then w else w + RECURSED }
  function ClearRecursed(w: nat): nat { if IsRecursed(w) then w - RECURSED else w }

  /** The word of a mutex held by `td`. */
  function Held(td: nat, recursed: bool): nat { td + LOCKED + (if recursed then RECURSED else 0) }

  lemma HeldWord(td: nat, recursed: bool)
    requires td % 8 == 0
    ensures LockOwner(Held(td, recursed)) == td && IsRecursed(Held(td, recursed)) == recursed
    ensures SetRecursed(Held(td, recursed)) == Held(td, true)
    ensures ClearRecursed(Held(td, recursed)) == Held(td, false)
    ensures NewLock(td, LOCKED) == Held(td, false) && Held(td, recursed) != 0 && LockOwner(0) == 0
  {
  }

  // ----- initialisation options -----

  const MTX_SPIN: bv32 := 0x1
  const MTX_DEBUG: bv32 := 0x2
  const MTX_RECURSIVE: bv32 := 0x4
  const MTX_NOCLAIMS: bv32 := 0x8
  const LC_SPINLOCK: bv32 := 0x0001
  const LC_WAITLOCK: bv32 := 0x0002
  const LC_MASK: bv32 := 0x00FF
  const LO_DEBUG: bv32 := 0x0100
  const LO_NOCLAIMS: bv32 := 0x0200
  const LO_RECURSABLE: bv32 := 0x0400
  const LO_INITIALIZED: bv32 := 0x1000

  function OptsToFlags(opts: bv32): bv32 {
    var spin := opts & MTX_SPIN != 0;
    var opts' := if spin then opts & !MTX_RECURSIVE else opts;
    LO_INITIALIZED | (if spin then LC_SPINLOCK else LC_WAITLOCK)
    | (if opts' & MTX_DEBUG != 0 then LO_DEBUG else 0)
    | (if opts' & MTX_NOCLAIMS != 0 then LO_NOCLAIMS else 0)
    | (if opts' & MTX_RECURSIVE != 0 then LO_RECURSABLE else 0)
  }

  /** A mutex is a spin lock or a wait lock by its class bits, and only a wait lock is recursable. */
  lemma FlagsMeaning(opts: bv32)
    ensures var flags := OptsToFlags(opts);
      && (flags & LC_MASK == LC_SPINLOCK <==> opts & MTX_SPIN != 0)
      && (flags & LC_MASK == LC_WAITLOCK <==> opts & MTX_SPIN == 0)
      && (flags & LO_RECURSABLE != 0 <==> opts & MTX_RECURSIVE != 0 && opts & MTX_SPIN == 0)
      && (flags & LO_DEBUG != 0 <==> opts & MTX_DEBUG != 0)
      && (flags & LO_NOCLAIMS != 0 <==> opts & MTX_NOCLAIMS != 0)
  {
  }

  // ----- states -----

  /** Where a thread is inside a call; `m` is the mutex, `v` or `n` a value just read. */
  datatype Pc =
    | Idle
    | Panicked
    // _mtx_wait_lock and _mtx_wait_trylock
    | ReadOwner(m: nat, try: bool)
    | ReadWordToRecurse(m: nat) | WriteWordToRecurse(m: nat, v: nat)
    | ReadCountUp(m: nat) | WriteCountUp(m: nat, v: nat)
    | CompareExchange(m: nat, try: bool) | WriteCountOne(m: nat)
    | ReadLocksUp(m: nat) | WriteLocksUp(m: nat, n: int)
    // _mtx_wait_unlock
    | CheckOwner(m: nat)
    | ReadCountDown(m: nat) | WriteCountDown(m: nat, v: nat)
    | ReadLocksDown(m: nat) | WriteLocksDown(m: nat, n: int)
    | TestRecursed(m: nat) | TestCountPositive(m: nat) | TestCountOne(m: nat)
    | ReadWordToUnrecurse(m: nat) | WriteWordToUnrecurse(m: nat, v: nat)
    | AssertCountZero(m: nat) | Release(m: nat)

  /** A mutex: its lock word, its recursion count (`lo.data`) and whether it may be locked twice. */
  datatype Mtx = Mtx(word: nat, count: nat, recursable: bool)

  /** A thread: where it is, its `lock_count`, an `int`, and for each mutex how often it has locked
      it. */
  datatype Thread = Thread(pc: Pc, locks: int, depth: seq<nat>)

  datatype State = State(mtx: seq<Mtx>, td: map<nat, Thread>)

  datatype Call = Lock(m: nat) | TryLock(m: nat) | Unlock(m: nat)

  const COUNT_MAX: nat := 0xFFFF_FFFF

  /** Callers unlock what they hold, and lock again only what may be locked again. */
  ghost predicate LegalCall(s: State, t: nat, c: Call)
    requires t in s.td
  {
    && c.m < |s.mtx| && c.m < |s.td[t].depth|
    && match c
       case Unlock(m) => s.td[t].depth[m] > 0
       case _ => s.td[t].depth[c.m] > 0 ==> s.mtx[c.m].recursable && s.td[t].depth[c.m] < COUNT_MAX
  }

  predicate Resting(pc: Pc) { pc.Idle? || pc.Panicked? }

  /** Every thread has a depth for every mutex and works on one that exists. */
  ghost predicate Shape(s: State) {
    forall t :: t in s.td ==>
      |s.td[t].depth| == |s.mtx| && (Resting(s.td[t].pc) || s.td[t].pc.m < |s.mtx|)
  }

  function GoTo(s: State, t: nat, pc: Pc): State
    requires t in s.td
  { s.(td := s.td[t := s.td[t].(pc := pc)]) }

  function Enter(c: Call): Pc {
    match c
    case Lock(m) => ReadOwner(m, false)
    case TryLock(m) => ReadOwner(m, true)
    case Unlock(m) => CheckOwner(m)
  }

  /** Subtraction on an unsigned field. */
  function Dec(n: nat): nat { if n == 0 then COUNT_MAX else n - 1 }

  /** Where a thread goes next when its step writes nothing but its own registers. */
  function NextPc(pc: Pc, t: nat, x: Mtx, locks: int): Pc {
    match pc
    case ReadOwner(m, try) =>
      if LockOwner(x.word) == t then (if x.recursable then ReadWordToRecurse(m) else Panicked)
      else CompareExchange(m, try)
    case ReadWordToRecurse(m) => WriteWordToRecurse(m, x.word)
    case ReadCountUp(m) => WriteCountUp(m, x.count)
    case CompareExchange(m, try) => if try then Idle else pc
    case ReadLocksUp(m) => WriteLocksUp(m, locks)
    case CheckOwner(m) => if LockOwner(x.word) == t then ReadCountDown(m) else Panicked
    case ReadCountDown(m) => WriteCountDown(m, x.count)
    case ReadLocksDown(m) => WriteLocksDown(m, locks)
    case TestRecursed(m) => if IsRecursed(x.word) then TestCountPositive(m) else AssertCountZero(m)
    case TestCountPositive(m) => if x.count > 0 then TestCountOne(m) else AssertCountZero(m)
    case TestCountOne(m) => if x.count == 1 then ReadWordToUnrecurse(m) else Idle
    case ReadWordToUnrecurse(m) => WriteWordToUnrecurse(m, x.word)
    case AssertCountZero(m) => if x.count == 0 then Release(m) else Panicked
    case _ => pc
  }

  /** A thread and the mutex it works on: where it is, how often it has locked it, and its
      `lock_count`. */
  datatype View = View(pc: Pc, depth: nat, mtx: Mtx, locks: int)

  /** What the next atomic step of thread `t` inside a call makes of the two. */
  function Moved(t: nat, l: View): View {
    var x := l.mtx;
    match l.pc
    case WriteWordToRecurse(m, v) => l.(pc := ReadCountUp(m), mtx := x.(word := SetRecursed(v)))
    case WriteCountUp(m, v) => l.(pc := ReadLocksUp(m), depth := l.depth + 1, mtx := x.(count := v + 1))
    case WriteCountOne(m) => l.(pc := ReadLocksUp(m), mtx := x.(count := 1))
    case WriteLocksUp(m, n) => l.(pc := Idle, locks := ToInt(n + 1))
    case WriteCountDown(m, v) => l.(pc := ReadLocksDown(m), depth := Dec(l.depth), mtx := x.(count := Dec(v)))
    case WriteLocksDown(m, n) => l.(pc := TestRecursed(m), locks := ToInt(n - 1))
    case WriteWordToUnrecurse(m, v) => l.(pc := Idle, mtx := x.(word := ClearRecursed(v)))
    case Release(m) => l.(pc := Idle, mtx := x.(word := 0))
    case CompareExchange(m, _) =>
      if x.word == 0 then l.(pc := WriteCountOne(m), depth := 1, mtx := x.(word := NewLock(t, LOCKED)))
      else l.(pc := NextPc(l.pc, t, x, l.locks))
    case _ => l.(pc := NextPc(l.pc, t, x, l.locks))
  }

  /** The next atomic step of thread `t`; `c` is the call it makes if it is idle. */
  function Step(s: State, t: nat, c: Call): State
    requires t in s.td && Shape(s)
  {
    var th := s.td[t];
    match th.pc
    case Idle => GoTo(s, t, Enter(c))
    case Panicked => s
    case _ =>
      var m := th.pc.m;
      var l := Moved(t, View(th.pc, th.depth[m], s.mtx[m], th.locks));
      State(s.mtx[m := l.mtx], s.td[t := Thread(l.pc, l.locks, th.depth[m := l.depth])])
  }

  // ----- the invariant, for one thread and one mutex -----

  /** How `lock_count` runs behind, or ahead of, the depths during a call. */
  function Behind(pc: Pc): int {
    if pc.WriteCountOne? || pc.ReadLocksUp? || pc.WriteLocksUp? then 1
    else if pc.ReadLocksDown? || pc.WriteLocksDown? then -1
    else 0
  }

  /** What the thread is doing about the mutex `m`. */
  function About(pc: Pc, m: nat): Pc { if !Resting(pc) && pc.m == m then pc else Idle }

  /** A thread owns a mutex it has locked, and until the word is cleared in its last unlock. */
  predicate Owns(pc: Pc, d: nat) {
    d > 0 || pc.ReadLocksDown? || pc.WriteLocksDown? || pc.TestRecursed? || pc.AssertCountZero? || pc.Release?
  }

  /** Whether the owner has the recursed bit set, at each point of a call. */
  predicate Recursing(pc: Pc, d: nat) {
    if pc.ReadCountUp? || pc.WriteCountUp? then true
    else if pc.ReadLocksDown? || pc.WriteLocksDown? || pc.TestRecursed? || pc.TestCountPositive?
            || pc.TestCountOne? || pc.ReadWordToUnrecurse? || pc.WriteWordToUnrecurse? then d >= 1
    else d >= 2
  }

  /** What an owner relies on. */
  ghost predicate OwnerOk(t: nat, pc: Pc, d: nat, x: Mtx) {
    Owns(pc, d) ==> x.word == Held(t, Recursing(pc, d)) && (!pc.WriteCountOne? ==> x.count == d)
  }

  /** What holds at each point of a call; in particular a value that was read is still current
      when it is written back. */
  ghost predicate PcOk(pc: Pc, d: nat, x: Mtx, locks: int) {
    match pc
    case Idle => true
    case Panicked => false
    case ReadOwner(_, _) => d > 0 ==> x.recursable && d < COUNT_MAX
    case ReadWordToRecurse(_) => 0 < d < COUNT_MAX
    case WriteWordToRecurse(_, v) => 0 < d < COUNT_MAX && v == x.word
    case ReadCountUp(_) => 0 < d < COUNT_MAX
    case WriteCountUp(_, v) => 0 < d < COUNT_MAX && v == x.count
    case CompareExchange(_, _) => d == 0
    case WriteCountOne(_) => d == 1
    case ReadLocksUp(_) => d > 0
    case WriteLocksUp(_, n) => d > 0 && n == locks
    case CheckOwner(_) => d > 0
    case ReadCountDown(_) => d > 0
    case WriteCountDown(_, v) => d > 0 && v == x.count
    case ReadLocksDown(_) => true
    case WriteLocksDown(_, n) => n == locks
    case TestRecursed(_) => true
    case TestCountPositive(_) => d > 0
    case TestCountOne(_) => d > 0
    case ReadWordToUnrecurse(_) => d == 1
    case WriteWordToUnrecurse(_, v) => d == 1 && v == x.word
    case AssertCountZero(_) => d == 0
    case Release(_) => d == 0
  }

  /** What holds of a thread and the mutex it works on. */
  ghost predicate ViewOk(t: nat, l: View) {
    PcOk(l.pc, l.depth, l.mtx, l.locks) && OwnerOk(t, l.pc, l.depth, l.mtx)
  }

  /** The step leaves the mutex to its owner, or is its owner's, or takes a free one. */
  ghost predicate Rightful(t: nat, l: View, l': View) {
    || (l'.mtx == l.mtx && (Owns(l'.pc, l'.depth) <==> Owns(l.pc, l.depth)))
    || ((l.mtx.word == 0 || Owns(l.pc, l.depth))
        && (l'.mtx.word == 0 || (LockOwner(l'.mtx.word) == t && Owns(l'.pc, l'.depth))))
  }

  /** The lock count follows the sum of the depths. */
  lemma MovedLocks(t: nat, l: View, sum: int)
    requires PcOk(l.pc, l.depth, l.mtx, l.locks) && l.locks == ToInt(sum - Behind(l.pc)) && !Resting(l.pc)
    ensures var l' := Moved(t, l);
      && l'.locks == ToInt(sum + l'.depth - l.depth - Behind(l'.pc))
      && On(l'.pc, l.pc.m) && l'.mtx.recursable == l.mtx.recursable
  {
    hide NewLock, LockOwner, IsRecursed, SetRecursed, ClearRecursed, ToInt;
    IntSum(sum - Behind(l.pc), 1);
    IntSum(sum - Behind(l.pc), -1);
  }

  /** A step keeps what holds of the thread and its mutex. */
  lemma MovedOk(t: nat, l: View)
    requires t % 8 == 0 && t != 0 && ViewOk(t, l) && !Resting(l.pc)
    requires l.mtx.word == 0 || (LockOwner(l.mtx.word) == t <==> Owns(l.pc, l.depth))
    ensures var l' := Moved(t, l);
      ViewOk(t, l') && Rightful(t, l, l') && !l'.pc.Panicked?
  {
    hide NewLock, LockOwner, IsRecursed, SetRecursed, ClearRecursed, Held, Behind;
    HeldWord(t, true);
    HeldWord(t, false);
  }

  predicate On(pc: Pc, m: nat) { Resting(pc) || pc.m == m }

  // ----- the invariant -----

  function Sum(d: seq<nat>): nat { if d == [] then 0 else Sum(d[..|d| - 1]) + d[|d| - 1] }

  ghost predicate ThreadOk(s: State, t: nat)
    requires t in s.td && Shape(s)
  {
    var th := s.td[t];
    && t % 8 == 0 && t != 0 && !th.pc.Panicked?
    && th.locks == ToInt(Sum(th.depth) - Behind(th.pc))
    && forall m :: 0 <= m < |s.mtx| ==> MtxOk(s, t, m)
  }

  ghost predicate MtxOk(s: State, t: nat, m: nat)
    requires t in s.td && Shape(s) && m < |s.mtx|
  {
    var th := s.td[t];
    && PcOk(About(th.pc, m), th.depth[m], s.mtx[m], th.locks)
    && OwnerOk(t, About(th.pc, m), th.depth[m], s.mtx[m])
  }

  /** A word that is not zero names a thread that owns the mutex. */
  ghost predicate WordOk(s: State, m: nat)
    requires m < |s.mtx| && Shape(s)
  {
    var w := s.mtx[m].word;
    w == 0 || (LockOwner(w) in s.td && OwnsMtx(s, LockOwner(w), m))
  }

  predicate OwnsMtx(s: State, t: nat, m: nat)
    requires t in s.td && m < |s.td[t].depth|
  { Owns(About(s.td[t].pc, m), s.td[t].depth[m]) }

  ghost predicate Inv(s: State) {
    && Shape(s)
    && (forall t :: t in s.td ==> ThreadOk(s, t))
    && (forall m :: 0 <= m < |s.mtx| ==> WordOk(s, m))
  }

  // ----- every step keeps the invariant -----

  /** A mutex that `t` owns, or that is free, is owned by nobody else. */
  lemma Exclusive(s: State, t: nat, m: nat, t': nat)
    requires Inv(s) && t in s.td && t' in s.td && t != t' && m < |s.mtx|
    requires s.mtx[m].word == 0 || OwnsMtx(s, t, m)
    ensures !OwnsMtx(s, t', m)
  {
    assert ThreadOk(s, t) && ThreadOk(s, t') && MtxOk(s, t, m) && MtxOk(s, t', m);
    HeldWord(t, Recursing(About(s.td[t].pc, m), s.td[t].depth[m]));
    HeldWord(t', Recursing(About(s.td[t'].pc, m), s.td[t'].depth[m]));
  }

  /** `s'` differs from `s` only in the thread `t` and in the mutex `m` it works on, and the mutex
      only if it was free or owned by `t`. */
  ghost predicate Framed(s: State, s': State, t: nat, m: nat) {
    && Shape(s) && Shape(s') && t in s.td && m < |s.mtx| && |s'.mtx| == |s.mtx| && s'.td.Keys == s.td.Keys
    && (forall t' :: t' in s.td && t' != t ==> s'.td[t'] == s.td[t'])
    && (forall m' :: 0 <= m' < |s.mtx| && m' != m ==>
          s'.mtx[m'] == s.mtx[m'] && s'.td[t].depth[m'] == s.td[t].depth[m'])
    && s'.mtx[m].recursable == s.mtx[m].recursable
    && (s'.mtx[m] == s.mtx[m] || s.mtx[m].word == 0 || OwnsMtx(s, t, m))
    && On(s.td[t].pc, m) && On(s'.td[t].pc, m)
  }

  lemma OthersOk(s: State, s': State, t: nat, m: nat, t': nat)
    requires Inv(s) && Framed(s, s', t, m) && t' in s.td && t' != t
    ensures ThreadOk(s', t')
  {
    assert ThreadOk(s, t');
    if s'.mtx[m] != s.mtx[m] {
      Exclusive(s, t, m, t');
    }
    forall m' | 0 <= m' < |s'.mtx|
      ensures MtxOk(s', t', m')
    {
      assert MtxOk(s, t', m');
      if m' == m && s'.mtx[m] != s.mtx[m] {
        NotOwned(About(s.td[t'].pc, m), s.td[t'].depth[m], s.mtx[m], s'.mtx[m], s.td[t'].locks);
      }
    }
  }

  /** A thread that does not own a mutex relies on nothing in it that can change. */
  lemma NotOwned(pc: Pc, d: nat, x: Mtx, x': Mtx, locks: int)
    requires PcOk(pc, d, x, locks) && !Owns(pc, d) && x'.recursable == x.recursable
    ensures PcOk(pc, d, x', locks)
  {
  }

  lemma ElsewhereOk(s: State, s': State, t: nat, m: nat, m': nat)
    requires Inv(s) && Framed(s, s', t, m) && m' < |s.mtx| && m' != m
    ensures WordOk(s', m') && MtxOk(s', t, m')
  {
    assert ThreadOk(s, t) && WordOk(s, m') && MtxOk(s, t, m');
  }

  /** What remains to be shown of a step. */
  lemma StepCombine(s: State, s': State, t: nat, m: nat)
    requires Inv(s) && Framed(s, s', t, m)
    requires !s'.td[t].pc.Panicked? && s'.td[t].locks == ToInt(Sum(s'.td[t].depth) - Behind(s'.td[t].pc))
    requires MtxOk(s', t, m) && WordOk(s', m)
    ensures Inv(s')
  {
    assert ThreadOk(s, t);
    forall m' | 0 <= m' < |s'.mtx|
      ensures WordOk(s', m') && MtxOk(s', t, m')
    {
      if m' != m {
        ElsewhereOk(s, s', t, m, m');
      }
    }
    forall t' | t' in s'.td
      ensures ThreadOk(s', t')
    {
      if t' != t {
        OthersOk(s, s', t, m, t');
      }
    }
  }

  lemma {:induction false} SumUpdate(d: seq<nat>, m: nat, v: nat)
    requires m < |d|
    ensures Sum(d[m := v]) == Sum(d) - d[m] + v
  {
    var k := |d| - 1;
    if m == k {
      assert d[m := v][..k] == d[..k];
    } else {
      assert d[m := v][..k] == d[..k][m := v];
      SumUpdate(d[..k], m, v);
    }
  }

  /** The word of a mutex names `t` just when `t` owns it. */
  lemma NamesOwner(s: State, t: nat, m: nat)
    requires Inv(s) && t in s.td && m < |s.mtx|
    ensures s.mtx[m].word == 0 || (LockOwner(s.mtx[m].word) == t <==> OwnsMtx(s, t, m))
    ensures s.mtx[m].word == 0 ==> !OwnsMtx(s, t, m)
  {
    assert ThreadOk(s, t) && MtxOk(s, t, m) && WordOk(s, m);
    HeldWord(t, Recursing(About(s.td[t].pc, m), s.td[t].depth[m]));
  }

  /** A step inside a call. */
  lemma ActStep(s: State, t: nat, c: Call)
    requires Inv(s) && t in s.td && !Resting(s.td[t].pc)
    ensures Inv(Step(s, t, c))
  {
    hide Moved, PcOk, Owns, OwnerOk, Behind, LockOwner, Sum, ToInt;
    var th := s.td[t];
    var m := th.pc.m;
    var l := View(th.pc, th.depth[m], s.mtx[m], th.locks);
    assert ThreadOk(s, t) && MtxOk(s, t, m) && WordOk(s, m);
    NamesOwner(s, t, m);
    MovedLocks(t, l, Sum(th.depth));
    MovedOk(t, l);
    var l' := Moved(t, l);
    SumUpdate(th.depth, m, l'.depth);
    StepCombine(s, Step(s, t, c), t, m);
  }

  /** Entering a call. */
  lemma EnterStep(s: State, t: nat, c: Call)
    requires Inv(s) && t in s.td && s.td[t].pc.Idle? && LegalCall(s, t, c)
    ensures Inv(Step(s, t, c))
  {
    hide PcOk, Owns, OwnerOk, Behind, Enter, ToInt, Sum, LockOwner, Moved;
    var m := c.m;
    assert ThreadOk(s, t) && MtxOk(s, t, m) && WordOk(s, m);
    EnterOk(t, c, s.td[t].depth[m], s.mtx[m], s.td[t].locks);
    StepCombine(s, GoTo(s, t, Enter(c)), t, m);
  }

  lemma EnterOk(t: nat, c: Call, d: nat, x: Mtx, locks: int)
    requires OwnerOk(t, Idle, d, x)
    requires if c.Unlock? then d > 0 else d > 0 ==> x.recursable && d < COUNT_MAX
    ensures var pc := Enter(c);
      && PcOk(pc, d, x, locks) && OwnerOk(t, pc, d, x) && Owns(pc, d) == Owns(Idle, d)
      && Behind(pc) == 0 && !Resting(pc) && pc.m == c.m && Behind(Idle) == 0
  {
  }

  /** Every step of every thread keeps the invariant. */
  lemma StepInv(s: State, t: nat, c: Call)
    requires Inv(s) && t in s.td && (s.td[t].pc.Idle? ==> LegalCall(s, t, c))
    ensures Inv(Step(s, t, c))
  {
    var pc := s.td[t].pc;
    hide Inv;
    if pc.Idle? {
      EnterStep(s, t, c);
    } else if !pc.Panicked? {
      ActStep(s, t, c);
    }
  }

  // ----- runs -----

  /** One entry per step: who moves, and what it calls if it is idle. */
  type Schedule = seq<(nat, Call)>

  ghost predicate Initial(s: State) {
    && (forall m :: 0 <= m < |s.mtx| ==> s.mtx[m].word == 0 && s.mtx[m].count == 0)
    && (forall t :: t in s.td ==> t % 8 == 0 && t != 0 && s.td[t] == Thread(Idle, 0, seq(|s.mtx|, _ => 0)))
  }

  ghost predicate LegalStep(u: State, e: (nat, Call), s': State) {
    && e.0 in u.td && Shape(u)
    && (u.td[e.0].pc.Idle? ==> LegalCall(u, e.0, e.1))
    && s' == Step(u, e.0, e.1)
  }

  lemma {:induction false} SumZero(d: seq<nat>)
    requires forall i :: 0 <= i < |d| ==> d[i] == 0
    ensures Sum(d) == 0
  {
    if d != [] {
      SumZero(d[..|d| - 1]);
    }
  }

  lemma InitialInv(s: State)
    requires Initial(s)
    ensures Inv(s)
  {
    SumZero(seq(|s.mtx|, _ => 0));
    forall t | t in s.td
      ensures |s.td[t].depth| == |s.mtx| && s.td[t].pc.Idle?
    {
    }
    assert Shape(s);
    forall t | t in s.td
      ensures ThreadOk(s, t)
    {
      assert forall m :: 0 <= m < |s.mtx| ==> MtxOk(s, t, m);
    }
  }

  /** A run of any length from an initial state: `b` are the states it goes through. */
  ghost predicate Behaviour(b: seq<State>, run: Schedule) {
    && |b| == |run| + 1 && Initial(b[0])
    && forall i :: 0 <= i < |run| ==> LegalStep(b[i], run[i], b[i + 1])
  }

  lemma {:induction false} ReachableInv(b: seq<State>, run: Schedule, i: nat)
    requires Behaviour(b, run) && i < |b|
    ensures Inv(b[i])
  {
    if i == 0 {
      InitialInv(b[0]);
    } else {
      ReachableInv(b, run, i - 1);
      assert LegalStep(b[i - 1], run[i - 1], b[i]);
      StepInv(b[i - 1], run[i - 1].0, run[i - 1].1);
    }
  }

  /** No two threads hold the same mutex. */
  ghost predicate MutualExclusion(s: State) {
    Shape(s) && forall m, t, t' :: 0 <= m < |s.mtx| && t in s.td && t' in s.td && t != t' ==>
      !(s.td[t].depth[m] > 0 && s.td[t'].depth[m] > 0)
  }

  /** A value that a thread read in order to write it back changed is still the current one, so that
      its plain read-modify-write loses nothing. */
  ghost predicate NoLostUpdate(s: State) {
    Shape(s) && forall t :: t in s.td ==>
      match s.td[t].pc
      case WriteWordToRecurse(m, v) => v == s.mtx[m].word
      case WriteWordToUnrecurse(m, v) => v == s.mtx[m].word
      case WriteCountUp(m, v) => v == s.mtx[m].count
      case WriteCountDown(m, v) => v == s.mtx[m].count
      case WriteLocksUp(_, v) => v == s.td[t].locks
      case WriteLocksDown(_, v) => v == s.td[t].locks
      case _ => true
  }

  /** No assertion has failed, neither that the count is zero on release nor any other. */
  ghost predicate NoPanic(s: State) { forall t :: t in s.td ==> !s.td[t].pc.Panicked? }

  /** Between calls, a mutex that a thread has locked names it, counts how often, and is marked
      recursed just when that is more than once. */
  ghost predicate ExactBetweenCalls(s: State) {
    Shape(s) && forall t, m :: t in s.td && 0 <= m < |s.mtx| && s.td[t].pc.Idle? && s.td[t].depth[m] > 0 ==>
      && LockOwner(s.mtx[m].word) == t && s.mtx[m].count == s.td[t].depth[m]
      && (IsRecursed(s.mtx[m].word) <==> s.td[t].depth[m] >= 2)
  }

  /** Between calls, a thread's lock count is what an `int` keeps of the sum of its depths, and so the
      sum itself just while that is no more than the greatest `int`. */
  ghost predicate LocksSummed(s: State) {
    forall t :: t in s.td && s.td[t].pc.Idle? ==>
      && s.td[t].locks == ToInt(Sum(s.td[t].depth))
      && (s.td[t].locks == Sum(s.td[t].depth) <==> Sum(s.td[t].depth) <= INT_MAX)
  }

  /** A mutex whose word is zero is held by nobody; any other is held by the thread it names. */
  ghost predicate FreeMeansUnowned(s: State) {
    Shape(s) && forall m :: 0 <= m < |s.mtx| ==>
      && (s.mtx[m].word == 0 ==> forall t :: t in s.td ==> s.td[t].depth[m] == 0)
      && (s.mtx[m].word != 0 ==> LockOwner(s.mtx[m].word) in s.td)
  }

  lemma InvSummed(s: State)
    requires Inv(s)
    ensures NoPanic(s) && LocksSummed(s)
  {
    hide ToInt, Sum, MtxOk, WordOk;
    forall t | t in s.td
      ensures !s.td[t].pc.Panicked? && s.td[t].locks == ToInt(Sum(s.td[t].depth) - Behind(s.td[t].pc))
      ensures ToInt(Sum(s.td[t].depth)) == Sum(s.td[t].depth) <==> Sum(s.td[t].depth) <= INT_MAX
    {
      assert ThreadOk(s, t);
      IntHolds(Sum(s.td[t].depth));
    }
  }

  lemma InvSafe(s: State)
    requires Inv(s)
    ensures MutualExclusion(s) && NoPanic(s) && LocksSummed(s) && FreeMeansUnowned(s)
  {
    hide ThreadOk, LocksSummed, NoPanic, Recursing;
    forall m, t, t' | 0 <= m < |s.mtx| && t in s.td && t' in s.td && t != t'
      ensures !(s.td[t].depth[m] > 0 && s.td[t'].depth[m] > 0)
    {
      if s.td[t].depth[m] > 0 {
        Exclusive(s, t, m, t');
      }
    }
    InvSummed(s);
    forall m | 0 <= m < |s.mtx|
      ensures s.mtx[m].word == 0 ==> forall t :: t in s.td ==> s.td[t].depth[m] == 0
      ensures s.mtx[m].word != 0 ==> LockOwner(s.mtx[m].word) in s.td
    {
      assert WordOk(s, m);
      forall t | t in s.td
        ensures s.mtx[m].word == 0 ==> s.td[t].depth[m] == 0
      {
        NamesOwner(s, t, m);
      }
    }
  }

  lemma InvExact(s: State)
    requires Inv(s)
    ensures ExactBetweenCalls(s) && NoLostUpdate(s)
  {
    forall t, m | t in s.td && 0 <= m < |s.mtx|
      ensures MtxOk(s, t, m)
      ensures s.td[t].pc.Idle? && s.td[t].depth[m] > 0 ==>
        && LockOwner(s.mtx[m].word) == t && s.mtx[m].count == s.td[t].depth[m]
        && (IsRecursed(s.mtx[m].word) <==> s.td[t].depth[m] >= 2)
    {
      assert ThreadOk(s, t);
      HeldWord(t, s.td[t].depth[m] >= 2);
    }
    forall t | t in s.td && !Resting(s.td[t].pc)
      ensures PcOk(s.td[t].pc, s.td[t].depth[s.td[t].pc.m], s.mtx[s.td[t].pc.m], s.td[t].locks)
    {
      assert MtxOk(s, t, s.td[t].pc.m);
    }
  }

  /** In every state of every interleaving of legal calls by any number of threads. */
  lemma MutexSafety(b: seq<State>, run: Schedule, i: nat)
    requires Behaviour(b, run) && i < |b|
    ensures MutualExclusion(b[i]) && NoLostUpdate(b[i]) && NoPanic(b[i])
    ensures ExactBetweenCalls(b[i]) && LocksSummed(b[i]) && FreeMeansUnowned(b[i])
  {
    ReachableInv(b, run, i);
    InvSafe(b[i]);
    InvExact(b[i]);
  }

  /** Free mutexes and threads at rest. */
  ghost function AtRest(threads: set<nat>, recursable: seq<bool>): State {
    State(seq(|recursable|, i requires 0 <= i < |recursable| => Mtx(0, 0, recursable[i])),
          map t | t in threads :: Thread(Idle, 0, seq(|recursable|, _ => 0)))
  }

  lemma AtRestInitial(threads: set<nat>, recursable: seq<bool>)
    requires forall t :: t in threads ==> t % 8 == 0 && t != 0
    ensures Initial(AtRest(threads, recursable)) && Behaviour([AtRest(threads, recursable)], [])
  {
  }

  /** Every run goes on: any thread can take its next step. */
  lemma RunsOn(b: seq<State>, run: Schedule, t: nat, c: Call)
    requires Behaviour(b, run)
    requires var s := b[|b| - 1]; t in s.td && (s.td[t].pc.Idle? ==> LegalCall(s, t, c))
    ensures Shape(b[|b| - 1]) && Behaviour(b + [Step(b[|b| - 1], t, c)], run + [(t, c)])
  {
    hide Inv, Initial, Step, LegalCall;
    ReachableInv(b, run, |b| - 1);
    InvShape(b[|b| - 1]);
    var b', run' := b + [Step(b[|b| - 1], t, c)], run + [(t, c)];
    forall i | 0 <= i < |run'|
      ensures LegalStep(b'[i], run'[i], b'[i + 1])
    {
      if i < |run| {
        assert LegalStep(b[i], run[i], b[i + 1]);
      }
    }
  }

  lemma InvShape(s: State)
    requires Inv(s)
    ensures Shape(s)
  {
  }
}
