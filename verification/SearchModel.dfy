/** Searching the interval tree: why one path is enough, and how long it can be. */
module SearchModel {
  import opened Base
  import opened RbModel
  import opened IntervalModel
  import opened DeleteModel

  // ----- the length of a search path -----

  function Height(t: Tree): nat {
    if t.Nil? then 0 else 1 + (if Height(t.l) > Height(t.r) then Height(t.l) else Height(t.r))
  }

  lemma {:induction false} BlackSize(t: Tree)
    requires RB(t)
    ensures Pow2(BlackHeight(t)) <= |Inorder(t)| + 1
  {
    if t.Node? {
      BlackSize(t.l);
      BlackSize(t.r);
    }
  }

  lemma {:induction false} BlackDepth(t: Tree)
    requires RB(t)
    ensures Height(t) <= 2 * BlackHeight(t) + (if ColorOf(t) == Red then 1 else 0)
  {
    if t.Node? {
      BlackDepth(t.l);
      BlackDepth(t.r);
    }
  }

  /** No path is longer than twice the logarithm of the number of nodes, plus one. */
  lemma LogHeight(t: Tree)
    requires RB(t) && ColorOf(t) == Black
    ensures Pow2(Height(t)) <= (|Inorder(t)| + 1) * (|Inorder(t)| + 1)
  {
    var h, n := BlackHeight(t), |Inorder(t)| + 1;
    BlackSize(t);
    BlackDepth(t);
    Pow2Mono(Height(t), h + h);
    Pow2Sum(h, h);
    hide Pow2, Height, BlackHeight, Inorder, RB;
    SquareMono(Pow2(h), n);
  }

  lemma SquareMono(a: nat, b: nat)
    requires a <= b
    ensures a * a <= b * b
  {
    assert a * a <= a * b <= b * b;
  }

  // ----- searching by key -----

  /** Where a node with a given start can be. */
  lemma KeyStep(g: Aug, t: Tree, lo: nat, hi: nat, key: nat)
    requires AugTree(g, t, lo, hi, NIL, false) && t.Node?
    ensures key < g.iv[t.id].start ==>
      forall i :: i in Ids(t) ==> i in g.iv && (g.iv[i].start == key ==> i in Ids(t.l))
    ensures key > g.iv[t.id].start ==>
      forall i :: i in Ids(t) ==> i in g.iv && (g.iv[i].start == key ==> i in Ids(t.r))
  {
    StartsAbove(g, t.l, lo, g.iv[t.id].start, NIL, false);
    StartsAbove(g, t.r, g.iv[t.id].end, hi, NIL, false);
  }

  // ----- searching for an overlap -----

  /** The one turn that matters: whatever overlaps `i` lies on the side that is taken, although
      the max recorded on the left may be more than any interval there reaches. */
  lemma OverlapStep(g: Aug, t: Tree, lo: nat, hi: nat, i: Interval)
    requires AugTree(g, t, lo, hi, NIL, false) && t.Node? && NIL !in Ids(t)
    requires !Overlaps(i, g.iv[t.id])
    ensures forall j :: j in Ids(t) ==> j in g.iv
    ensures t.l.Node? && MaxOf(g, t.l.id) > i.start ==>
      forall j :: j in Ids(t) && Overlaps(i, g.iv[j]) ==> j in Ids(t.l)
    ensures !(t.l.Node? && MaxOf(g, t.l.id) > i.start) ==>
      forall j :: j in Ids(t) && Overlaps(i, g.iv[j]) ==> j in Ids(t.r)
  {
    StartsAbove(g, t, lo, hi, NIL, false);
    StartsAbove(g, t.r, g.iv[t.id].end, hi, NIL, false);
    if t.l.Node? {
      MaxBound(g, t.l, lo, g.iv[t.id].start, false);
    }
  }

  // ----- exactness -----

  function Rightmost(t: Tree): Id { if t.Nil? then NIL else if t.r.Nil? then t.id else Rightmost(t.r) }
  function Leftmost(t: Tree): Id { if t.Nil? then NIL else if t.l.Nil? then t.id else Leftmost(t.l) }

  /** Before anything is deleted, max and min are those of the subtree's intervals. */
  lemma {:induction false} ExactMax(g: Aug, t: Tree, lo: nat, hi: nat)
    requires AugTree(g, t, lo, hi, NIL, true) && t.Node? && NIL !in Ids(t)
    ensures Rightmost(t) in Ids(t) && Rightmost(t) in g.iv && g.mx[t.id] == g.iv[Rightmost(t)].end
    ensures lo <= g.iv[Rightmost(t)].start < g.iv[Rightmost(t)].end <= hi
  {
    if t.l.Node? {
      ExactMax(g, t.l, lo, g.iv[t.id].start);
    }
    if t.r.Node? {
      ExactMax(g, t.r, g.iv[t.id].end, hi);
    }
  }

  lemma {:induction false} ExactMin(g: Aug, t: Tree, lo: nat, hi: nat)
    requires AugTree(g, t, lo, hi, NIL, true) && t.Node? && NIL !in Ids(t) && hi <= U64_MAX
    ensures Leftmost(t) in Ids(t) && Leftmost(t) in g.iv && g.mn[t.id] == g.iv[Leftmost(t)].start
    ensures lo <= g.iv[Leftmost(t)].start < g.iv[Leftmost(t)].end <= hi
  {
    if t.l.Node? {
      ExactMin(g, t.l, lo, g.iv[t.id].start);
    }
    if t.r.Node? {
      ExactMin(g, t.r, g.iv[t.id].end, hi);
    }
  }

  /** So they are the greatest end and the least start. */
  lemma ExactData(g: Aug, t: Tree, lo: nat, hi: nat)
    requires AugTree(g, t, lo, hi, NIL, true) && t.Node? && NIL !in Ids(t) && hi <= U64_MAX
    ensures forall i :: i in Ids(t) ==> i in g.iv && g.iv[i].end <= g.mx[t.id] && g.mn[t.id] <= g.iv[i].start
    ensures exists i :: i in Ids(t) && g.iv[i].end == g.mx[t.id]
    ensures exists i :: i in Ids(t) && g.iv[i].start == g.mn[t.id]
  {
    MaxBound(g, t, lo, hi, true);
    ExactMax(g, t, lo, hi);
    ExactMin(g, t, lo, hi);
  }

  // ----- one turn of a search -----

  lemma AtEmpty(s: Store, g: Aug, p: Path, t: Tree, n: Id, exact: bool, q: seq<Id>)
    requires At(s, g, p, t, n, exact, q)
    ensures RootId(t) == NIL <==> t.Nil?
    ensures t.Nil? ==> Ids(t) == {}
    ensures t.Node? ==> t.id in Ids(t)
  {
    if t.Node? {
      FocusFields(s, p, t);
    }
  }

  /** Below the node at the focus. */
  lemma AtChildren(s: Store, g: Aug, p: Path, t: Tree, q: seq<Id>)
    requires At(s, g, p, t, NIL, false, q) && t.Node?
    ensures HasAug(g, t.id) && t.id in Ids(t) && Ids(t.l) <= Ids(t) && Ids(t.r) <= Ids(t)
    ensures t.id in s.m && s.m[t.id].left == RootId(t.l) && s.m[t.id].right == RootId(t.r)
    ensures At(s, g, LeftOf(p, t.id, t.c, t.r), t.l, NIL, false, q)
    ensures At(s, g, RightOf(p, t.id, t.c, t.l), t.r, NIL, false, q)
    ensures Height(t.l) < Height(t) && Height(t.r) < Height(t)
    ensures t.l.Node? <==> s.m[t.id].left != NIL
  {
    AtFields(s, g, p, t, NIL, false, q);
    AtUp(s, g, LeftOf(p, t.id, t.c, t.r), t.l, NIL, false, q);
    AtUp(s, g, RightOf(p, t.id, t.c, t.l), t.r, NIL, false, q);
    AtEmpty(s, g, LeftOf(p, t.id, t.c, t.r), t.l, NIL, false, q);
    AtInterval(s, g, p, t, NIL, false, q);
  }

  lemma AtKeyStep(s: Store, g: Aug, p: Path, t: Tree, q: seq<Id>, key: nat)
    requires At(s, g, p, t, NIL, false, q) && RootId(t) != NIL
    ensures t.Node? && HasAug(g, t.id) && t.id in Ids(t) && Ids(t.l) <= Ids(t) && Ids(t.r) <= Ids(t)
    ensures t.id in s.m && s.m[t.id].left == RootId(t.l) && s.m[t.id].right == RootId(t.r)
    ensures At(s, g, LeftOf(p, t.id, t.c, t.r), t.l, NIL, false, q)
    ensures At(s, g, RightOf(p, t.id, t.c, t.l), t.r, NIL, false, q)
    ensures Height(t.l) < Height(t) && Height(t.r) < Height(t)
    ensures key < g.iv[t.id].start ==>
      forall i :: i in Ids(t) ==> i in g.iv && (g.iv[i].start == key ==> i in Ids(t.l))
    ensures key > g.iv[t.id].start ==>
      forall i :: i in Ids(t) ==> i in g.iv && (g.iv[i].start == key ==> i in Ids(t.r))
  {
    AtChildren(s, g, p, t, q);
    KeyStep(g, t, Lo(g, p), Hi(g, p), key);
  }

  lemma AtOverlapStep(s: Store, g: Aug, p: Path, t: Tree, q: seq<Id>, i: Interval)
    requires At(s, g, p, t, NIL, false, q) && t.Node?
    ensures HasAug(g, t.id) && t.id in Ids(t) && Ids(t.l) <= Ids(t) && Ids(t.r) <= Ids(t)
    ensures t.id in s.m && s.m[t.id].left == RootId(t.l) && s.m[t.id].right == RootId(t.r)
    ensures At(s, g, LeftOf(p, t.id, t.c, t.r), t.l, NIL, false, q)
    ensures At(s, g, RightOf(p, t.id, t.c, t.l), t.r, NIL, false, q)
    ensures Height(t.l) < Height(t) && Height(t.r) < Height(t)
    ensures forall j :: j in Ids(t) ==> j in g.iv
    ensures !Overlaps(i, g.iv[t.id]) && s.m[t.id].left != NIL && MaxOf(g, s.m[t.id].left) > i.start ==>
      forall j :: j in Ids(t) && Overlaps(i, g.iv[j]) ==> j in Ids(t.l)
    ensures !Overlaps(i, g.iv[t.id]) && !(s.m[t.id].left != NIL && MaxOf(g, s.m[t.id].left) > i.start) ==>
      forall j :: j in Ids(t) && Overlaps(i, g.iv[j]) ==> j in Ids(t.r)
  {
    AtChildren(s, g, p, t, q);
    FocusApart(s, p, t);
    StartsAbove(g, t, Lo(g, p), Hi(g, p), NIL, false);
    if !Overlaps(i, g.iv[t.id]) {
      OverlapStep(g, t, Lo(g, p), Hi(g, p), i);
    }
  }

  // ----- points -----

  /** Overlapping the unit interval at a point, which wraps at the top, is holding the point. */
  lemma PointOverlaps(ids: set<Id>, iv: map<Id, Interval>, val: map<Id, nat>, q: seq<Id>, point: nat)
    requires Known(ids, iv, val) && Between(iv, q, 0, U64_MAX) && point <= U64_MAX
    requires forall i :: i in ids <==> i in q
    ensures forall i :: i in ids ==>
      (Overlaps(Interval(point, (point + 1) % U64), iv[i]) <==> iv[i].start <= point < iv[i].end)
    ensures (exists e :: e in Pairs(ids, iv, val) && e.0.start <= point < e.0.end)
       <==> exists i :: i in ids && iv[i].start <= point < iv[i].end
  {
    forall i | i in ids
      ensures Overlaps(Interval(point, (point + 1) % U64), iv[i]) <==> iv[i].start <= point < iv[i].end
    {
      var k :| 0 <= k < |q| && q[k] == i;
    }
    if i :| i in ids && iv[i].start <= point < iv[i].end {
      assert (iv[i], val[i]) in Pairs(ids, iv, val);
    }
  }

  // ----- the first node from an address on -----

  ghost predicate SplitsAt(iv: map<Id, Interval>, p: Path, from: nat) {
    && (forall i :: i in Before(p) ==> i in iv && iv[i].start < from)
    && (forall i :: i in After(p) ==> i in iv && iv[i].start >= from)
  }

  lemma AtSplit(s: Store, g: Aug, p: Path, t: Tree, q: seq<Id>, from: nat)
    requires At(s, g, p, t, NIL, false, q) && t.Node? && SplitsAt(g.iv, p, from)
    ensures t.id in g.iv
    ensures g.iv[t.id].start >= from ==> SplitsAt(g.iv, LeftOf(p, t.id, t.c, t.r), from)
    ensures g.iv[t.id].start < from ==> SplitsAt(g.iv, RightOf(p, t.id, t.c, t.l), from)
  {
    StartsAbove(g, t.l, Lo(g, p), g.iv[t.id].start, NIL, false);
    StartsAbove(g, t.r, g.iv[t.id].end, Hi(g, p), NIL, false);
    hide At, AugTree, Ids;
    IdsInorder(t.l);
    IdsInorder(t.r);
    SplitStep(g.iv, p, t, from);
  }

  lemma SplitStep(iv: map<Id, Interval>, p: Path, t: Tree, from: nat)
    requires t.Node? && SplitsAt(iv, p, from) && t.id in iv
    requires forall i :: i in Inorder(t.l) ==> i in iv && iv[i].start < iv[t.id].start
    requires forall i :: i in Inorder(t.r) ==> i in iv && iv[i].start > iv[t.id].start
    ensures iv[t.id].start >= from ==> SplitsAt(iv, LeftOf(p, t.id, t.c, t.r), from)
    ensures iv[t.id].start < from ==> SplitsAt(iv, RightOf(p, t.id, t.c, t.l), from)
  {
    hide Inorder;
  }
}
