/** The radix tree of kernel/mm/pgcache.c as values: paths of digits, nodes and what they hold. */
module PgCacheModel {
  import opened Base

  const FANOUT: nat := 16

  function Pow16(k: nat): (n: nat)
    ensures n > 0
  { if k == 0 then 1 else 16 * Pow16(k - 1) }

  // ----- digits, lowest first -----

  function Digits(n: nat, k: nat): (ds: seq<nat>)
    ensures |ds| == k && forall i :: 0 <= i < k ==> ds[i] < 16
  {
    if k == 0 then [] else [n % 16] + Digits(n / 16, k - 1)
  }

  function Number(ds: seq<nat>): nat { if ds == [] then 0 else ds[0] + 16 * Number(ds[1..]) }

  lemma {:induction false} NumberOfDigits(n: nat, k: nat)
    requires n < Pow16(k)
    ensures Number(Digits(n, k)) == n
  {
    if k > 0 {
      NumberOfDigits(n / 16, k - 1);
      assert Digits(n, k)[1..] == Digits(n / 16, k - 1);
    }
  }

  lemma LowDigit(d: nat, rest: nat)
    requires d < 16
    ensures (d + 16 * rest) % 16 == d && (d + 16 * rest) / 16 == rest
  {
  }

  lemma {:induction false} DigitsOfNumber(ds: seq<nat>)
    requires forall i :: 0 <= i < |ds| ==> ds[i] < 16
    ensures Number(ds) < Pow16(|ds|) && Digits(Number(ds), |ds|) == ds
  {
    if ds != [] {
      DigitsOfNumber(ds[1..]);
      LowDigit(ds[0], Number(ds[1..]));
      assert ds == [ds[0]] + ds[1..];
    }
  }

  // ----- the tree -----

  /** Slots of nodes: children above the leaves, pages in the leaves. */
  type Nodes = map<Id, seq<Id>>

  function NoSlots(): (s: seq<Id>)
    ensures |s| == 16 && forall i :: 0 <= i < 16 ==> s[i] == NIL
  { seq(16, i => NIL) }

  /** A tree as a whole: the node at each path from the root, and the path of each node. */
  datatype Layout = Layout(at: map<seq<nat>, Id>, path: map<Id, seq<nat>>)

  ghost predicate Placed(nodes: Nodes, l: Layout, order: nat, p: seq<nat>) {
    && p in l.at && l.at[p] != NIL && l.at[p] in nodes && |nodes[l.at[p]]| == 16 && |p| <= order
    && l.at[p] in l.path && l.path[l.at[p]] == p
    && forall i :: 0 <= i < |p| ==> p[i] < 16
  }

  /** A slot above the leaves leads to the node one digit further, when there is one. */
  ghost predicate Leads(nodes: Nodes, l: Layout, p: seq<nat>, d: nat)
    requires d < 16
  {
    && p in l.at && l.at[p] in nodes && |nodes[l.at[p]]| == 16
    && nodes[l.at[p]][d] == if p + [d] in l.at then l.at[p + [d]] else NIL
  }

  ghost predicate Shape(nodes: Nodes, root: Id, order: nat, l: Layout) {
    && [] in l.at && l.at[[]] == root
    && (forall p :: p in l.at ==> Placed(nodes, l, order, p))
    && (forall p, d: nat :: p in l.at && |p| < order && d < 16 ==> Leads(nodes, l, p, d))
    && (forall p :: p in l.at && p != [] ==> p[..|p| - 1] in l.at)
    && (forall x :: x in nodes ==> x in l.path && l.path[x] in l.at && l.at[l.path[x]] == x)
  }

  /** What slot `d` of the node at path `p` holds, null when there is no such node. */
  ghost function SlotAt(nodes: Nodes, l: Layout, p: seq<nat>, d: nat): Id
    requires d < 16
  {
    if p in l.at && l.at[p] in nodes && |nodes[l.at[p]]| == 16 then nodes[l.at[p]][d] else NIL
  }

  /** The page at page number `n`, or null. */
  ghost function Value(nodes: Nodes, order: nat, l: Layout, n: nat): Id {
    var ds := Digits(n, order + 1);
    SlotAt(nodes, l, ds[..order], ds[order])
  }

  /** All pages, by page number. */
  ghost function Pages(nodes: Nodes, order: nat, l: Layout): map<nat, Id> {
    map n: nat | n < Pow16(order + 1) && Value(nodes, order, l, n) != NIL :: Value(nodes, order, l, n)
  }

  ghost function Put(m: map<nat, Id>, n: nat, page: Id): map<nat, Id> {
    if page == NIL then m - {n} else m[n := page]
  }

  ghost function Get(m: map<nat, Id>, n: nat): Id { if n in m then m[n] else NIL }

  lemma GetValue(nodes: Nodes, order: nat, l: Layout, n: nat)
    ensures Get(Pages(nodes, order, l), n) == if n < Pow16(order + 1) then Value(nodes, order, l, n) else NIL
    ensures Get(Pages(nodes, order, l), n) == NIL ==> n !in Pages(nodes, order, l)
  {
    hide Value;
  }

  // ----- a new node -----

  function WithNode(nodes: Nodes, node: Id, d: nat, child: Id): Nodes
    requires node in nodes && d < |nodes[node]|
  {
    var s: seq<Id> := nodes[node][d := child];
    nodes[node := s][child := NoSlots()]
  }

  ghost function WithPath(l: Layout, p: seq<nat>, child: Id): Layout {
    Layout(l.at[p := child], l.path[child := p])
  }

  lemma GrownPlaced(nodes: Nodes, root: Id, order: nat, l: Layout, p: seq<nat>, d: nat, child: Id, r: seq<nat>)
    requires Shape(nodes, root, order, l) && Placed(nodes, l, order, p) && |p| < order && d < 16 && p + [d] !in l.at
    requires child != NIL && child !in nodes && (r in l.at || r == p + [d])
    ensures Placed(WithNode(nodes, l.at[p], d, child), WithPath(l, p + [d], child), order, r)
  {
    hide Shape;
    if r in l.at {
      PlacedAt(nodes, root, order, l, r);
    }
  }

  lemma GrownLeads(nodes: Nodes, root: Id, order: nat, l: Layout, p: seq<nat>, d: nat, child: Id, r: seq<nat>, e: nat)
    requires Shape(nodes, root, order, l) && Placed(nodes, l, order, p) && |p| < order && d < 16 && p + [d] !in l.at
    requires child != NIL && child !in nodes && (r in l.at || r == p + [d]) && |r| < order && e < 16
    ensures Leads(WithNode(nodes, l.at[p], d, child), WithPath(l, p + [d], child), r, e)
  {
    var q := p + [d];
    if r == q {
      NothingBelow(nodes, root, order, l, q, e);
    } else {
      assert Leads(nodes, l, r, e) && Placed(nodes, l, order, r);
      hide Shape;
      assert r + [e] == q ==> r == q[..|q| - 1] && e == q[|q| - 1];
    }
  }

  lemma GrownShape(nodes: Nodes, root: Id, order: nat, l: Layout, p: seq<nat>, d: nat, child: Id)
    requires Shape(nodes, root, order, l) && p in l.at && |p| < order && d < 16 && p + [d] !in l.at
    requires child != NIL && child !in nodes
    ensures Placed(nodes, l, order, p)
    ensures Shape(WithNode(nodes, l.at[p], d, child), root, order, WithPath(l, p + [d], child))
  {
    hide Placed, Leads;
    var q := p + [d];
    assert Placed(nodes, l, order, p);
    PlacedNode(nodes, l, order, p);
    var nodes', l' := WithNode(nodes, l.at[p], d, child), WithPath(l, q, child);
    forall r | r in l'.at
      ensures Placed(nodes', l', order, r)
    {
      GrownPlaced(nodes, root, order, l, p, d, child, r);
    }
    forall r, e: nat | r in l'.at && |r| < order && e < 16
      ensures Leads(nodes', l', r, e)
    {
      GrownLeads(nodes, root, order, l, p, d, child, r, e);
    }
    assert q[..|q| - 1] == p && [] in l.at && q != [];
    forall r | r in l'.at && r != []
      ensures r[..|r| - 1] in l'.at
    {
      assert r == q || r[..|r| - 1] in l.at;
    }
    forall x | x in nodes'
      ensures x in l'.path && l'.path[x] in l'.at && l'.at[l'.path[x]] == x
    {
      assert x == child || (x in nodes && l.path[x] != q);
    }
  }

  lemma PlacedAt(nodes: Nodes, root: Id, order: nat, l: Layout, p: seq<nat>)
    requires Shape(nodes, root, order, l) && p in l.at
    ensures Placed(nodes, l, order, p)
  {
  }

  lemma PlacedNode(nodes: Nodes, l: Layout, order: nat, p: seq<nat>)
    requires Placed(nodes, l, order, p)
    ensures p in l.at && l.at[p] in nodes && |nodes[l.at[p]]| == 16
  {
  }

  lemma NothingBelow(nodes: Nodes, root: Id, order: nat, l: Layout, q: seq<nat>, e: nat)
    requires Shape(nodes, root, order, l) && q !in l.at
    ensures q + [e] !in l.at
  {
    var r := q + [e];
    assert r[..|r| - 1] == q;
  }

  lemma GrownSlot(nodes: Nodes, root: Id, order: nat, l: Layout, p: seq<nat>, d: nat, child: Id, r: seq<nat>, e: nat)
    requires Shape(nodes, root, order, l) && Placed(nodes, l, order, p) && |p| < order && d < 16 && p + [d] !in l.at
    requires child !in nodes && |r| == order && e < 16
    ensures SlotAt(WithNode(nodes, l.at[p], d, child), WithPath(l, p + [d], child), r, e) == SlotAt(nodes, l, r, e)
  {
    hide Shape;
    if r in l.at {
      PlacedAt(nodes, root, order, l, r);
      assert l.at[r] != l.at[p];
    }
  }

  lemma GrownPages(nodes: Nodes, root: Id, order: nat, l: Layout, p: seq<nat>, d: nat, child: Id)
    requires Shape(nodes, root, order, l) && Placed(nodes, l, order, p) && |p| < order && d < 16 && p + [d] !in l.at
    requires child !in nodes
    ensures Pages(WithNode(nodes, l.at[p], d, child), order, WithPath(l, p + [d], child)) == Pages(nodes, order, l)
  {
    forall m: nat
      ensures
        Value(WithNode(nodes, l.at[p], d, child), order, WithPath(l, p + [d], child), m) == Value(nodes, order, l, m)
    {
      var ds := Digits(m, order + 1);
      GrownSlot(nodes, root, order, l, p, d, child, ds[..order], ds[order]);
    }
    hide Shape, Placed, Value, Digits, WithNode, WithPath;
  }

  // ----- a page in its slot -----

  lemma SamePath(order: nat, n: nat, m: nat)
    requires n < Pow16(order + 1) && m < Pow16(order + 1)
    requires Digits(n, order + 1)[..order] == Digits(m, order + 1)[..order]
    requires Digits(n, order + 1)[order] == Digits(m, order + 1)[order]
    ensures n == m
  {
    var a, b := Digits(n, order + 1), Digits(m, order + 1);
    assert a == a[..order] + [a[order]] && b == b[..order] + [b[order]];
    NumberOfDigits(n, order + 1);
    NumberOfDigits(m, order + 1);
  }

  function WithSlot(nodes: Nodes, node: Id, d: nat, page: Id): Nodes
    requires node in nodes && d < |nodes[node]|
  {
    var s: seq<Id> := nodes[node][d := page];
    nodes[node := s]
  }

  lemma SetShape(nodes: Nodes, root: Id, order: nat, l: Layout, p: seq<nat>, d: nat, page: Id)
    requires Shape(nodes, root, order, l) && p in l.at && |p| == order && d < 16
    ensures Placed(nodes, l, order, p) && Shape(WithSlot(nodes, l.at[p], d, page), root, order, l)
  {
    var nodes' := WithSlot(nodes, l.at[p], d, page);
    forall r | r in l.at
      ensures Placed(nodes', l, order, r)
    {
      assert Placed(nodes, l, order, r);
    }
    forall r, e: nat | r in l.at && |r| < order && e < 16
      ensures Leads(nodes', l, r, e)
    {
      assert Leads(nodes, l, r, e) && Placed(nodes, l, order, r);
    }
  }

  lemma SetValue(nodes: Nodes, root: Id, order: nat, l: Layout, n: nat, page: Id, m: nat)
    requires Shape(nodes, root, order, l) && n < Pow16(order + 1) && m < Pow16(order + 1)
    requires Digits(n, order + 1)[..order] in l.at
    requires Placed(nodes, l, order, Digits(n, order + 1)[..order])
    ensures
      var ds := Digits(n, order + 1);
      Value(WithSlot(nodes, l.at[ds[..order]], ds[order], page), order, l, m) ==
      if m == n then page else Value(nodes, order, l, m)
  {
    var p, q := Digits(n, order + 1)[..order], Digits(m, order + 1)[..order];
    if m != n && p == q {
      if Digits(n, order + 1)[order] == Digits(m, order + 1)[order] {
        SamePath(order, n, m);
      }
    } else if q in l.at {
      assert Placed(nodes, l, order, q) && Placed(nodes, l, order, p);
    }
  }

  lemma PagesPut(nodes: Nodes, nodes': Nodes, order: nat, l: Layout, n: nat, page: Id)
    requires n < Pow16(order + 1)
    requires forall m: nat :: m < Pow16(order + 1) ==>
      Value(nodes', order, l, m) == if m == n then page else Value(nodes, order, l, m)
    ensures Pages(nodes', order, l) == Put(Pages(nodes, order, l), n, page)
  {
    hide Value, Pow16;
  }

  lemma SetPages(nodes: Nodes, root: Id, order: nat, l: Layout, n: nat, page: Id)
    requires Shape(nodes, root, order, l) && n < Pow16(order + 1)
    requires Placed(nodes, l, order, Digits(n, order + 1)[..order])
    ensures
      var ds := Digits(n, order + 1);
      Pages(WithSlot(nodes, l.at[ds[..order]], ds[order], page), order, l) == Put(Pages(nodes, order, l), n, page)
  {
    var ds := Digits(n, order + 1);
    var nodes' := WithSlot(nodes, l.at[ds[..order]], ds[order], page);
    assert ds[..order] in l.at;
    hide Shape, Value, Digits, WithSlot, Pages, Put, Placed, Pow16;
    forall m: nat | m < Pow16(order + 1)
      ensures Value(nodes', order, l, m) == if m == n then page else Value(nodes, order, l, m)
    {
      SetValue(nodes, root, order, l, n, page, m);
    }
    PagesPut(nodes, nodes', order, l, n, page);
  }

  /** What the end of a descent says of a page number. */
  lemma LeafValue(nodes: Nodes, root: Id, order: nat, l: Layout, n: nat)
    requires Shape(nodes, root, order, l)
    ensures
      var ds := Digits(n, order + 1);
      && Value(nodes, order, l, n) == SlotAt(nodes, l, ds[..order], ds[order])
      && (ds[..order] in l.at ==> Placed(nodes, l, order, ds[..order]))
  {
  }
}
