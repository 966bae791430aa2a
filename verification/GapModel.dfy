/** Aligning addresses, and the least aligned gap in a list of disjoint intervals. */
module GapModel {
  import opened Base
  import opened RbModel
  import opened ChainModel
  import opened IntervalModel

  // ----- free ranges -----

  /** `[c, c + size)` is aligned, at or above `from`, within 64 bits and overlaps nothing in `q`. */
  ghost predicate Fits(iv: map<Id, Interval>, q: seq<Id>, from: nat, size: nat, a: nat, c: nat)
    requires a > 0
  {
    && c % a == 0 && from <= c && c + size <= U64_MAX
    && forall i :: 0 <= i < |q| && q[i] in iv ==> !Overlaps(Interval(c, c + size), iv[q[i]])
  }

  /** Everything that fits lies at or above `g`, the start of the gap before the `k`-th interval. */
  ghost predicate AllFrom(iv: map<Id, Interval>, q: seq<Id>, from: nat, size: nat, a: nat, g: nat)
    requires a > 0
  {
    forall c: nat :: Fits(iv, q, from, size, a, c) ==> g <= c
  }

  /** What the source asks of an alignment. */
  predicate Alignment(a: nat) { PowerOfTwo(a) && a < U64 }

  function CheckGap(start: nat, end: nat, size: nat, a: nat): bool
    requires a > 0
  {
    var aligned := Align64(start, a);
    aligned < end && end - aligned >= size
  }

  function AlignedInterval(start: nat, size: nat, a: nat): Interval
    requires a > 0
  {
    var aligned := Align64(start, a);
    Interval(aligned, (aligned + size) % U64)
  }

  /** The size of a range, in 64 bits. */
  function SizeOf(i: Interval): (size: nat)
    ensures size < U64
  { (i.end - i.start) % U64 }

  /** The gap before the `k`-th interval, from what its predecessors leave. */
  ghost predicate GapStart(iv: map<Id, Interval>, q: seq<Id>, from: nat, k: nat, g: nat) {
    && from <= g && k <= |q| && (k < |q| ==> q[k] in iv)
    && (forall i :: 0 <= i < k ==> q[i] in iv && iv[q[i]].end <= g)
  }

  /** A gap that is wide enough gives the least range that fits. */
  lemma GapFound(iv: map<Id, Interval>, q: seq<Id>, from: nat, size: nat, a: nat, k: nat, g: nat, c: nat)
    requires Between(iv, q, 0, U64_MAX) && a > 0 && Alignment(a) && GapStart(iv, q, from, k, g)
    requires AllFrom(iv, q, from, size, a, g) && Fits(iv, q, from, size, a, c)
    requires k < |q| ==> CheckGap(g, iv[q[k]].start, size, a)
    ensures Align64(g, a) == AlignUp(g, a) && AlignUp(g, a) <= c
    ensures Fits(iv, q, from, size, a, AlignUp(g, a))
  {
    hide Align64, PowerOfTwo;
    AlignUpLeast(g, a, c);
    AlignMacro(g, a);
    var r := AlignUp(g, a);
    assert g <= c;
    forall i | 0 <= i < |q|
      ensures !Overlaps(Interval(r, r + size), iv[q[i]])
    {
      if i > k {
        assert iv[q[k]].end <= iv[q[i]].start;
      }
    }
  }

  /** A gap that is too narrow leaves only what lies beyond the next interval. */
  lemma GapMissed(iv: map<Id, Interval>, q: seq<Id>, from: nat, size: nat, a: nat, k: nat, g: nat)
    requires Between(iv, q, 0, U64_MAX) && a > 0 && Alignment(a) && size > 0 && GapStart(iv, q, from, k, g) && k < |q|
    requires AllFrom(iv, q, from, size, a, g) && !CheckGap(g, iv[q[k]].start, size, a)
    ensures AllFrom(iv, q, from, size, a, Max(g, iv[q[k]].end))
  {
    hide Align64, PowerOfTwo;
    forall c: nat | Fits(iv, q, from, size, a, c)
      ensures Max(g, iv[q[k]].end) <= c
    {
      MissedAt(iv, q, from, size, a, k, g, c);
    }
  }

  lemma MissedAt(iv: map<Id, Interval>, q: seq<Id>, from: nat, size: nat, a: nat, k: nat, g: nat, c: nat)
    requires a > 0 && Alignment(a) && size > 0 && g <= c && k < |q| && q[k] in iv && iv[q[k]].start < iv[q[k]].end
    requires Fits(iv, q, from, size, a, c) && !CheckGap(g, iv[q[k]].start, size, a)
    ensures Max(g, iv[q[k]].end) <= c
  {
    hide Align64, PowerOfTwo;
    AlignUpLeast(g, a, c);
    AlignMacro(g, a);
    assert !Overlaps(Interval(c, c + size), iv[q[k]]);
  }

  /** What is promised of a range of `size` starting at `c`: it fits, nothing lower does, and
      `prev` is the stored interval just before it, if there is one. */
  ghost predicate LeastGap(iv: map<Id, Interval>, q: seq<Id>, from: nat, size: nat, a: nat, c: nat, prev: Id)
    requires a > 0
  {
    && Fits(iv, q, from, size, a, c) && AllFrom(iv, q, from, size, a, c)
    && exists k: nat :: k <= |q| && Splits(iv, q, k, c, size) && prev == Nth(q, k - 1)
  }

  /** The first `k` intervals end at or before `c`, the others start at or after its end. */
  ghost predicate Splits(iv: map<Id, Interval>, q: seq<Id>, k: nat, c: nat, size: nat) {
    && (forall i :: 0 <= i < k && i < |q| && q[i] in iv ==> iv[q[i]].end <= c)
    && (forall i :: k <= i < |q| && q[i] in iv ==> c + size <= iv[q[i]].start)
  }

  ghost predicate SomeFits(iv: map<Id, Interval>, q: seq<Id>, from: nat, size: nat, a: nat)
    requires a > 0
  { exists c: nat :: Fits(iv, q, from, size, a, c) }

  lemma GapTaken(iv: map<Id, Interval>, q: seq<Id>, from: nat, size: nat, a: nat, k: nat, g: nat)
    requires Between(iv, q, 0, U64_MAX) && a > 0 && Alignment(a) && GapStart(iv, q, from, k, g)
    requires AllFrom(iv, q, from, size, a, g) && SomeFits(iv, q, from, size, a)
    requires k < |q| ==> CheckGap(g, iv[q[k]].start, size, a)
    ensures var r := AlignedInterval(g, size, a);
      r.end == r.start + size && LeastGap(iv, q, from, size, a, r.start, Nth(q, k - 1))
  {
    hide Align64, PowerOfTwo;
    var c: nat :| Fits(iv, q, from, size, a, c);
    GapFound(iv, q, from, size, a, k, g, c);
    var r := AlignUp(g, a);
    forall c': nat | Fits(iv, q, from, size, a, c')
      ensures r <= c'
    {
      AlignUpLeast(g, a, c');
    }
    AlignUpLeast(g, a, c);
    forall i | k <= i < |q|
      ensures r + size <= iv[q[i]].start
    {
      assert i > k ==> iv[q[k]].end <= iv[q[i]].start;
    }
    assert Splits(iv, q, k, r, size);
  }

  /** Before the first interval that starts at or above `from`. */
  lemma FirstGap(iv: map<Id, Interval>, q: seq<Id>, from: nat, size: nat, a: nat, k: nat)
    requires Between(iv, q, 0, U64_MAX) && a > 0 && size > 0 && k <= |q|
    requires forall i :: 0 <= i < k ==> iv[q[i]].start < from
    ensures var g: nat := if k == 0 then from else Max(from, iv[q[k - 1]].end);
      GapStart(iv, q, from, k, g) && AllFrom(iv, q, from, size, a, g)
  {
    if k > 0 {
      forall c: nat | Fits(iv, q, from, size, a, c)
        ensures iv[q[k - 1]].end <= c
      {
        assert !Overlaps(Interval(c, c + size), iv[q[k - 1]]);
      }
      assert forall i :: 0 <= i < k - 1 ==> iv[q[i]].end <= iv[q[k - 1]].start;
    }
  }

  /** From one gap to the next. */
  lemma NextGap(iv: map<Id, Interval>, q: seq<Id>, from: nat, size: nat, a: nat, k: nat, g: nat)
    requires Between(iv, q, 0, U64_MAX) && a > 0 && Alignment(a) && size > 0 && GapStart(iv, q, from, k, g) && k < |q|
    requires AllFrom(iv, q, from, size, a, g) && !CheckGap(g, iv[q[k]].start, size, a)
    ensures GapStart(iv, q, from, k + 1, Max(g, iv[q[k]].end))
    ensures AllFrom(iv, q, from, size, a, Max(g, iv[q[k]].end))
  {
    hide Align64, PowerOfTwo;
    GapMissed(iv, q, from, size, a, k, g);
  }

  /** The list around its `k`-th node. */
  lemma GapEnds(iv: map<Id, Interval>, ch: Chain, q: seq<Id>, k: nat)
    requires Linked(ch, q) && NoDup(q) && k <= |q| && Between(iv, q, 0, U64_MAX)
    ensures Nth(q, k) != NIL <==> k < |q|
    ensures Nth(q, k - 1) != NIL <==> k > 0
    ensures k > 0 ==> q[k - 1] in iv && q[k - 1] == Nth(q, k - 1)
    ensures k < |q| ==>
      && q[k] in iv && q[k] == Nth(q, k) && iv[q[k]].start < iv[q[k]].end
      && q[k] in ch.prev && ch.prev[q[k]] == Nth(q, k - 1)
      && q[k] in ch.next && ch.next[q[k]] == Nth(q, k + 1)
      && (k > 0 ==> iv[q[k - 1]].end <= iv[q[k]].start)
    ensures k == |q| ==> ch.last == Nth(q, k - 1)
  {
    assert k < |q| ==> LinkAt(ch, q, k) && q[k] in q;
    assert k > 0 ==> q[k - 1] in q;
  }
}
