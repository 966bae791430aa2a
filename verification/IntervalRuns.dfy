/** Whole runs of the interval tree's operations. */
module IntervalRuns {
  import opened Base
  import opened RbModel
  import opened IntervalModel
  import opened IntervalTrees
  import opened DeleteModel
  import opened ChainModel

  datatype Op = Add(i: Interval, v: nat) | Remove(start: nat)

  /** An interval is added that overlaps nothing stored, or one is removed by its start. */
  ghost predicate Legal(op: Op, c: set<(Interval, nat)>) {
    match op
    case Add(i, _) => i.start < i.end <= U64_MAX && forall e :: e in c ==> !Overlaps(i, e.0)
    case Remove(start) => exists e :: e in c && e.0.start == start
  }

  ghost function Applied(op: Op, c: set<(Interval, nat)>): set<(Interval, nat)> {
    match op
    case Add(i, v) => c + {(i, v)}
    case Remove(start) => set e | e in c && e.0.start != start
  }

  /** What is stored after a run. */
  ghost function Stored(ops: seq<Op>): set<(Interval, nat)> {
    if ops == [] then {} else Applied(ops[|ops| - 1], Stored(ops[..|ops| - 1]))
  }

  ghost predicate LegalRun(ops: seq<Op>) {
    forall k :: 0 <= k < |ops| ==> Legal(ops[k], Stored(ops[..k]))
  }

  ghost predicate OnlyAdds(ops: seq<Op>) { forall k :: 0 <= k < |ops| ==> ops[k].Add? }

  lemma {:induction false} Bounded(ids: set<Id>) returns (z: Id)
    ensures z != NIL && forall i :: i in ids ==> i < z
  {
    if ids == {} {
      z := 1;
    } else {
      var i :| i in ids;
      var b := Bounded(ids - {i});
      z := if i < b then b else i + 1;
      assert forall j :: j in ids ==> j == i || j in ids - {i};
    }
  }

  method Step(t: IntervalTree, op: Op, junk: nat)
    requires t.Valid() && Legal(op, t.Contents())
    modifies t
    ensures t.Valid() && t.Contents() == Applied(op, old(t.Contents()))
    ensures op.Add? && old(t.exact) ==> t.exact
  {
    match op
    case Add(i, v) =>
      var z := FreshId(t);
      forall j | j in Ids(t.tree)
        ensures !Overlaps(i, t.g.iv[j])
      {
        PairsHas(Ids(t.tree), t.g.iv, t.val, j);
      }
      t.Insert(z, i, v, junk, junk);
    case Remove(start) =>
      StartKnown(t, start);
      OneStart(t, start);
      var found, v, astray := t.Delete(start);
  }

  lemma StartKnown(t: IntervalTree, start: nat)
    requires t.Valid() && exists e :: e in t.Contents() && e.0.start == start
    ensures t.HasStart(start)
  {
    var e :| e in t.Contents() && e.0.start == start;
    var i :| i in Ids(t.tree) && e == (t.g.iv[i], t.val[i]);
  }

  /** No two stored intervals start at the same address. */
  lemma OneStart(t: IntervalTree, start: nat)
    requires t.Valid()
    ensures forall e, e' :: e in t.Contents() && e' in t.Contents() && e.0.start == e'.0.start ==> e == e'
  {
    AtOrder(t.s, t.g, t.tree, NIL, t.exact, Inorder(t.tree));
    OnePair(Ids(t.tree), t.g.iv, t.val, Inorder(t.tree));
  }

  lemma OnePair(ids: set<Id>, iv: map<Id, Interval>, val: map<Id, nat>, q: seq<Id>)
    requires Known(ids, iv, val) && Between(iv, q, 0, U64_MAX) && forall i :: i in ids ==> i in q
    ensures forall e, e' :: e in Pairs(ids, iv, val) && e' in Pairs(ids, iv, val) && e.0.start == e'.0.start ==> e == e'
  {
    forall e, e' | e in Pairs(ids, iv, val) && e' in Pairs(ids, iv, val) && e.0.start == e'.0.start
      ensures e == e'
    {
      var i :| i in ids && e == (iv[i], val[i]);
      var j :| j in ids && e' == (iv[j], val[j]);
      DistinctStarts(iv, q, i, j);
    }
  }

  lemma DistinctStarts(iv: map<Id, Interval>, q: seq<Id>, i: Id, j: Id)
    requires Between(iv, q, 0, U64_MAX) && i in q && j in q && iv[i].start == iv[j].start
    ensures i == j
  {
    var a :| 0 <= a < |q| && q[a] == i;
    var b :| 0 <= b < |q| && q[b] == j;
    assert forall x, y :: 0 <= x < y < |q| ==> iv[q[x]].start < iv[q[y]].start;
  }

  /** After any legal run of inserts and deletes, the tree is valid and holds exactly what the
      run left; with inserts only, its min and max are exact. */
  method Run(ops: seq<Op>, junk: nat) returns (t: IntervalTree)
    requires LegalRun(ops)
    ensures fresh(t) && t.Valid() && t.Contents() == Stored(ops)
    ensures OnlyAdds(ops) ==> t.exact
  {
    hide At, RB, ColorOf, Linked, Known, Pairs, Inorder, Ids, Applied, Legal;
    t := new IntervalTree();
    for k := 0 to |ops|
      invariant fresh(t) && t.Valid() && t.Contents() == Stored(ops[..k])
      invariant OnlyAdds(ops[..k]) ==> t.exact
    {
      assert ops[..k + 1][..k] == ops[..k];
      Step(t, ops[k], junk);
    }
    assert ops[..|ops|] == ops;
  }

  // ----- a run after which the sentinel passes for a node -----

  lemma {:induction false} NoNodes(t: Tree)
    requires |Inorder(t)| == 0
    ensures t.Nil?
  {
  }

  /** Of two nodes one is the root, and the other a child without children. */
  lemma TwoNodes(t: Tree)
    requires |Inorder(t)| == 2
    ensures t.Node? && (t.l.Node? || t.r.Node?)
    ensures t.l.Node? ==> t.r.Nil? && t.l.l.Nil? && t.l.r.Nil?
    ensures t.r.Node? ==> t.l.Nil? && t.r.l.Nil? && t.r.r.Nil?
  {
    if t.l.Node? {
      assert |Inorder(t)| == |Inorder(t.l.l)| + 1 + |Inorder(t.l.r)| + 1 + |Inorder(t.r)|;
      NoNodes(t.r);
      NoNodes(t.l.l);
      NoNodes(t.l.r);
    } else {
      assert |Inorder(t)| == 1 + |Inorder(t.r.l)| + 1 + |Inorder(t.r.r)|;
      NoNodes(t.r.l);
      NoNodes(t.r.r);
    }
  }

  lemma ChildRed(t: Tree)
    requires t.Node? && RB(t)
    ensures t.l.Node? && t.r.Nil? && t.l.l.Nil? ==> t.l.c == Red
    ensures t.r.Node? && t.l.Nil? && t.r.l.Nil? ==> t.r.c == Red
  {
  }

  lemma ChildOfTwo(s: Store, g: Aug, t: Tree, exact: bool, q: seq<Id>)
    requires At(s, g, Top, t, NIL, exact, q) && |Inorder(t)| == 2
    ensures s.root in s.m && s.root == RootId(t)
    ensures var z := if s.m[s.root].left != NIL then s.m[s.root].left else s.m[s.root].right;
      Ids(t) == {s.root, z} && z != s.root && ChildlessBelow(s, z) && (RB(t) ==> s.m[z].color == Red)
  {
    hide At, RB;
    TwoNodes(t);
    if RB(t) {
      ChildRed(t);
    }
    AtFields(s, g, Top, t, NIL, exact, q);
    if t.l.Node? {
      AtUp(s, g, LeftOf(Top, t.id, t.c, t.r), t.l, NIL, exact, q);
      AtFields(s, g, LeftOf(Top, t.id, t.c, t.r), t.l, NIL, exact, q);
    } else {
      AtUp(s, g, RightOf(Top, t.id, t.c, t.l), t.r, NIL, exact, q);
      AtFields(s, g, RightOf(Top, t.id, t.c, t.l), t.r, NIL, exact, q);
    }
  }

  method FreshId(t: IntervalTree) returns (z: Id)
    ensures z != NIL && z !in t.s.m
  {
    ghost var b := Bounded(t.s.m.Keys);
    assert b !in t.s.m;
    z :| z != NIL && z !in t.s.m;
  }

  method TwoInserted(i: Interval, j: Interval) returns (t: IntervalTree)
    requires i.start < i.end <= j.start < j.end <= U64_MAX
    ensures fresh(t) && t.Valid() && |Inorder(t.tree)| == 2 && t.exact
    ensures forall k :: k in Ids(t.tree) ==> k in t.g.iv && t.g.iv[k] == if k == RootId(t.tree) then i else j
  {
    hide At, RB, Linked, Pairs;
    t := new IntervalTree();
    assert Ids(t.tree) == {} && Inorder(t.tree) == [];
    var a := FreshId(t);
    t.Insert(a, i, 0, 0, 0);
    var b := FreshId(t);
    InTree(t, a);
    t.Insert(b, j, 0, 0, 0);
  }

  lemma InTree(t: IntervalTree, a: Id)
    requires t.Valid() && a in Ids(t.tree)
    ensures a in t.s.m
  {
    hide At, RB, Linked;
    AtLocate(t.s, t.g, Top, t.tree, NIL, t.exact, Inorder(t.tree), a);
    var (p, u) := Locate(Top, t.tree, a);
    AtFields(t.s, t.g, p, u, NIL, t.exact, Inorder(t.tree));
  }

  /** Two inserts and a delete: the sentinel then has a parent. */
  method SentinelHung(i: Interval, j: Interval) returns (t: IntervalTree)
    requires i.start < i.end <= j.start < j.end <= U64_MAX
    ensures fresh(t) && t.Valid() && NIL in t.s.m && t.s.m[NIL].parent != NIL
    ensures forall e :: e in t.Contents() ==> e.0 == i || e.0 == j
  {
    hide At, RB, Linked, Ids;
    t := TwoInserted(i, j);
    ChildOfTwo(t.s, t.g, t.tree, t.exact, Inorder(t.tree));
    var root := t.s.m[t.s.root];
    var z := if root.left != NIL then root.left else root.right;
    var v := t.DeletePresent(z);
  }

  /** Deleting a start that nothing has then goes astray, while looking it up finds nothing. */
  method DeleteAstray(i: Interval, j: Interval, absent: nat) returns (data: nat, astray: bool)
    requires i.start < i.end <= j.start < j.end <= U64_MAX && absent != i.start && absent != j.start
    ensures data == 0 && astray
  {
    hide At, RB, Linked, Ids, Pairs;
    var t := SentinelHung(i, j);
    Absent(t, i, j, absent);
    data := t.FindData(absent);
    var found, v;
    found, v, astray := t.Delete(absent);
  }

  lemma Absent(t: IntervalTree, i: Interval, j: Interval, absent: nat)
    requires t.Valid() && absent != i.start && absent != j.start
    requires forall e :: e in t.Contents() ==> e.0 == i || e.0 == j
    ensures !t.HasStart(absent)
  {
    hide At, RB, Linked;
    if t.HasStart(absent) {
      var k :| k in Ids(t.tree) && k in t.g.iv && t.g.iv[k].start == absent;
      PairsHas(Ids(t.tree), t.g.iv, t.val, k);
    }
  }

  // ----- a run after which a maximum is stale -----

  /** Two inserts and a delete: the node that is left still records the end of the one deleted. */
  method StaleMax(i: Interval, j: Interval) returns (t: IntervalTree)
    requires i.start < i.end <= j.start < j.end <= U64_MAX
    ensures fresh(t) && t.Valid() && t.tree.Node?
    ensures var top := t.tree.id;
      top in t.g.mx && t.g.mx[top] == j.end && forall k :: k in Ids(t.tree) ==> k in t.g.iv && t.g.iv[k].end < j.end
  {
    hide At, RB, Linked, Pairs;
    t := TwoInserted(i, j);
    TopMax(t, i, j);
    ChildOfTwo(t.s, t.g, t.tree, t.exact, Inorder(t.tree));
    ghost var top := t.tree.id;
    var root := t.s.m[t.s.root];
    var z := if root.left != NIL then root.left else root.right;
    var v := t.DeletePresent(z);
    assert Ids(t.tree) == {top};
  }

  lemma TopMax(t: IntervalTree, i: Interval, j: Interval)
    requires t.Valid() && t.exact && |Inorder(t.tree)| == 2 && i.end < j.end
    requires forall k :: k in Ids(t.tree) ==> k in t.g.iv && t.g.iv[k] == if k == RootId(t.tree) then i else j
    ensures t.tree.Node?
    ensures t.tree.id in t.g.mx && t.g.mx[t.tree.id] == j.end
  {
    hide At, RB, Linked;
    TwoNodes(t.tree);
    var top := t.tree.id;
    t.Exact(top);
    assert Locate(Top, t.tree, top) == (Top, t.tree);
    var z := if t.tree.l.Node? then t.tree.l.id else t.tree.r.id;
    ChildOfTwo(t.s, t.g, t.tree, t.exact, Inorder(t.tree));
    assert z in Ids(t.tree);
  }
}
