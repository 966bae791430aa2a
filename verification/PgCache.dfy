/** The page cache of kernel/mm/pgcache.c. */
module PgCaches {
  import opened Base
  import opened PgCacheModel

  const U63: nat := 0x8000_0000_0000_0000

  function Log2(n: nat): nat
    requires n > 0
  { if n == 1 then 0 else 1 + Log2(n / 2) }

  function ShiftRight(x: nat, bits: nat): nat { if bits == 0 then x else ShiftRight(x / 2, bits - 1) }

  /** The page number of an offset: what is left when the bits within a page are shifted out. */
  function PageOf(off: nat, size: nat): nat
    requires size > 0
  { ShiftRight(off, Log2(size)) }

  lemma {:induction false} PageQuotient(off: nat, size: nat)
    requires PowerOfTwo(size)
    ensures size > 0 && PageOf(off, size) == off / size
    decreases size
  {
    PowerHalf(size);
    if size > 1 {
      hide PowerOfTwo;
      var h := size / 2;
      PageQuotient(off / 2, h);
      HalfQuotient(off, h);
    }
  }

  lemma HalfQuotient(x: nat, h: nat)
    requires h > 0
    ensures x / 2 / h == x / (2 * h)
  {
    var y := x / 2;
    assert y == h * (y / h) + y % h;
    assert x == (2 * h) * (y / h) + (2 * (y % h) + x % 2);
    ModUnique(x, 2 * h, y / h, 2 * (y % h) + x % 2);
  }

  /** How many bytes a cache can hold: a power of two that fits in 64 bits. */
  function CapacityOf(order: nat, pgSize: nat): nat { Pow16(order + 1) * pgSize }

  lemma WithinCache(off: nat, order: nat, pgSize: nat)
    requires PowerOfTwo(pgSize)
    ensures pgSize > 0 && (off < CapacityOf(order, pgSize) <==> PageOf(off, pgSize) < Pow16(order + 1))
  {
    Within(off, pgSize, Pow16(order + 1));
  }

  lemma Within(off: nat, size: nat, n: nat)
    requires PowerOfTwo(size)
    ensures size > 0 && (off < n * size <==> PageOf(off, size) < n)
  {
    hide PageOf, PowerOfTwo;
    PageQuotient(off, size);
    var q := off / size;
    assert off == q * size + off % size;
    if q < n {
      Multiply(q + 1, n, size);
    } else {
      Multiply(n, q, size);
    }
  }

  lemma Multiply(a: nat, b: nat, c: nat)
    requires a <= b
    ensures a * c <= b * c
  {
  }

  lemma {:induction false} PrefixIn(nodes: Nodes, root: Id, order: nat, l: Layout, p: seq<nat>, i: nat)
    requires Shape(nodes, root, order, l) && i <= |p| && p in l.at
    ensures p[..i] in l.at
    decreases |p|
  {
    if i < |p| {
      var q := p[..|p| - 1];
      PrefixIn(nodes, root, order, l, q, i);
      assert q[..i] == p[..i];
    } else {
      assert p[..i] == p;
    }
  }

  lemma PrefixOut(nodes: Nodes, root: Id, order: nat, l: Layout, p: seq<nat>, i: nat)
    requires Shape(nodes, root, order, l) && i <= |p| && p[..i] !in l.at
    ensures p !in l.at
  {
    if p in l.at {
      PrefixIn(nodes, root, order, l, p, i);
    }
  }

  /** The digit that a level of the descent looks at, and what is left of the number. */
  lemma NextDigit(ds: seq<nat>, i: nat, n: nat, k: nat)
    requires k > 0 && i + k == |ds| && ds[i..] == Digits(n, k)
    ensures ds[i] == n % 16 && ds[i + 1..] == Digits(n / 16, k - 1) && ds[..i + 1] == ds[..i] + [n % 16]
  {
    assert ds[i] == ds[i..][0] && ds[i + 1..] == ds[i..][1..];
  }

  lemma NewShape(nodes: Nodes, root: Id, order: nat, l: Layout)
    requires root != NIL && nodes == map[root := NoSlots()] && l == Layout(map[[] := root], map[root := []])
    ensures Shape(nodes, root, order, l) && Pages(nodes, order, l) == map[]
  {
    assert forall p: seq<nat>, d: nat :: p + [d] != [];
    forall p, d: nat | p in l.at && |p| < order && d < 16
      ensures Leads(nodes, l, p, d)
    {
      assert p == [] && p + [d] != [];
    }
  }

  lemma RootAt(nodes: Nodes, root: Id, order: nat, l: Layout)
    requires Shape(nodes, root, order, l)
    ensures [] in l.at && l.at[[]] == root && root != NIL
  {
    assert Placed(nodes, l, order, []);
  }

  lemma ChildFacts(nodes: Nodes, root: Id, order: nat, l: Layout, p: seq<nat>, d: nat)
    requires Shape(nodes, root, order, l) && p in l.at && |p| < order && d < 16
    ensures Placed(nodes, l, order, p) && Leads(nodes, l, p, d)
    ensures p + [d] in l.at ==> l.at[p + [d]] != NIL
  {
    assert p + [d] in l.at ==> Placed(nodes, l, order, p + [d]);
  }

  lemma GrownNames(nodes: Nodes, node: Id, d: nat, child: Id)
    requires node in nodes && d < |nodes[node]|
    ensures WithNode(nodes, node, d, child).Keys == nodes.Keys + {child}
  {
  }

  class PgCache {
    const order: nat
    const pgSize: nat
    var root: Id
    var nodes: Nodes
    /** Where the next node will be allocated. */
    var next: Id
    ghost var layout: Layout

    ghost predicate Valid()
      reads this
    {
      && pgSize > 0 && PowerOfTwo(pgSize) && CapacityOf(order, pgSize) <= U63
      && Shape(nodes, root, order, layout)
      && next > 0 && forall x :: x in nodes ==> x < next
    }

    /** The pages cached, by page number. */
    ghost function Contents(): map<nat, Id>
      reads this
    { Pages(nodes, order, layout) }

    constructor (order: nat, pgSize: nat)
      requires PowerOfTwo(pgSize) && CapacityOf(order, pgSize) <= U63
      ensures Valid() && Contents() == map[] && this.order == order && this.pgSize == pgSize && fresh(this)
    {
      this.order, this.pgSize := order, pgSize;
      root, next := 1, 2;
      nodes := map[1 := NoSlots()];
      layout := Layout(map[[] := 1], map[1 := []]);
      new;
      NewShape(nodes, 1, order, layout);
    }

    /** The leaf for an offset and the slot in it; nodes on the way are made when inserting. */
    method LookupLeaf(off: nat, insert: bool) returns (node: Id, idx: nat)
      requires Valid() && off < CapacityOf(order, pgSize)
      modifies this
      ensures Valid() && Contents() == old(Contents()) && root == old(root)
      ensures !insert ==> nodes == old(nodes) && layout == old(layout) && next == old(next)
      ensures insert ==> node != NIL
      ensures
        var ds := Digits(PageOf(off, pgSize), order + 1);
        && (node != NIL <==> ds[..order] in layout.at)
        && (node != NIL ==> layout.at[ds[..order]] == node && idx == ds[order] && node in nodes && |nodes[node]| == 16)
      ensures Get(Contents(), PageOf(off, pgSize)) == if node == NIL then NIL else nodes[node][idx]
    {
      hide Pages, Pow16, Shape, Digits, Value, Get, Placed, PageOf, CapacityOf, PowerOfTwo;
      WithinCache(off, order, pgSize);
      RootAt(nodes, root, order, layout);
      node, idx := root, 0;
      var n: nat := PageOf(off, pgSize);
      ghost var ds := Digits(n, order + 1);
      assert ds[..0] == [] && ds[0..] == ds;
      var i: nat := 0;
      while i < order
        invariant 0 <= i <= order && ds[i..] == Digits(n, order + 1 - i)
        invariant Valid() && Contents() == old(Contents()) && root == old(root)
        invariant !insert ==> nodes == old(nodes) && layout == old(layout) && next == old(next)
        invariant ds[..i] in layout.at && layout.at[ds[..i]] == node && node != NIL
      {
        idx := n % 16;
        NextDigit(ds, i, n, order + 1 - i);
        node := Child(node, idx, ds[..i], insert);
        if node == NIL {
          assert ds[..order][..i + 1] == ds[..i + 1];
          PrefixOut(nodes, root, order, layout, ds[..order], i + 1);
          break;
        }
        n := n / 16;
        i := i + 1;
      }
      if node != NIL {
        idx := n % 16;
        NextDigit(ds, i, n, 1);
      }
      LeafFacts(PageOf(off, pgSize));
    }

    lemma LeafFacts(n: nat)
      requires Valid() && n < Pow16(order + 1)
      ensures
        var ds := Digits(n, order + 1);
        && Get(Contents(), n) == SlotAt(nodes, layout, ds[..order], ds[order])
        && (ds[..order] in layout.at ==>
              layout.at[ds[..order]] in nodes && |nodes[layout.at[ds[..order]]]| == 16 && layout.at[ds[..order]] != NIL)
    {
      GetValue(nodes, order, layout, n);
      LeafValue(nodes, root, order, layout, n);
      hide Pages, Shape, Digits, Get, Value;
    }

    /** The child of a node at a slot, made when it is missing and `insert` asks for it. */
    method Child(node: Id, idx: nat, ghost p: seq<nat>, insert: bool) returns (child: Id)
      requires Valid() && p in layout.at && layout.at[p] == node && |p| < order && idx < 16
      modifies this
      ensures Valid() && Contents() == old(Contents()) && root == old(root)
      ensures !insert ==> nodes == old(nodes) && layout == old(layout) && next == old(next)
      ensures insert ==> child != NIL
      ensures child == NIL ==> p + [idx] !in layout.at
      ensures child != NIL ==> p + [idx] in layout.at && layout.at[p + [idx]] == child
    {
      hide Shape, Pages, Pow16, Placed, WithNode;
      ChildFacts(nodes, root, order, layout, p, idx);
      child := nodes[node][idx];
      if child == NIL && insert {
        child := next;
        GrownShape(nodes, root, order, layout, p, idx, child);
        GrownNames(nodes, node, idx, child);
        GrownPages(nodes, root, order, layout, p, idx, child);
        nodes := WithNode(nodes, node, idx, child);
        layout := WithPath(layout, p + [idx], child);
        next := next + 1;
      }
    }

    method Lookup(off: nat) returns (page: Id)
      requires Valid()
      modifies this
      ensures Valid() && Contents() == old(Contents()) && nodes == old(nodes)
      ensures page == Get(Contents(), PageOf(off, pgSize))
    {
      hide Shape, Pages, Pow16, Get, Digits, PageOf, CapacityOf, PowerOfTwo;
      WithinCache(off, order, pgSize);
      GetValue(nodes, order, layout, PageOf(off, pgSize));
      if off >= CapacityOf(order, pgSize) {
        return NIL;
      }
      var node, idx := LookupLeaf(off, false);
      page := if node == NIL then NIL else nodes[node][idx];
    }

    /** The page that was there before is given back; one past the end is dropped. */
    method Insert(off: nat, page: Id) returns (old_: Id)
      requires Valid()
      modifies this
      ensures Valid() && old_ == Get(old(Contents()), PageOf(off, pgSize))
      ensures Contents() ==
        if PageOf(off, pgSize) < Pow16(order + 1) then Put(old(Contents()), PageOf(off, pgSize), page)
        else old(Contents())
    {
      hide Shape, Pages, Pow16, Get, Digits, PageOf, CapacityOf, PowerOfTwo;
      WithinCache(off, order, pgSize);
      GetValue(nodes, order, layout, PageOf(off, pgSize));
      if off >= CapacityOf(order, pgSize) {
        return NIL;
      }
      var node, idx := LookupLeaf(off, true);
      old_ := nodes[node][idx];
      WriteSlot(PageOf(off, pgSize), node, idx, page);
    }

    method Remove(off: nat) returns (page: Id)
      requires Valid()
      modifies this
      ensures Valid() && page == Get(old(Contents()), PageOf(off, pgSize))
      ensures Contents() == old(Contents()) - {PageOf(off, pgSize)}
    {
      hide Shape, Pages, Pow16, Digits, PageOf, CapacityOf, PowerOfTwo;
      WithinCache(off, order, pgSize);
      GetValue(nodes, order, layout, PageOf(off, pgSize));
      if off >= CapacityOf(order, pgSize) {
        return NIL;
      }
      var node, idx := LookupLeaf(off, false);
      if node == NIL || nodes[node][idx] == NIL {
        return NIL;
      }
      page := nodes[node][idx];
      WriteSlot(PageOf(off, pgSize), node, idx, NIL);
    }

    method WriteSlot(ghost n: nat, node: Id, idx: nat, page: Id)
      requires Valid() && n < Pow16(order + 1) && Digits(n, order + 1)[..order] in layout.at
      requires layout.at[Digits(n, order + 1)[..order]] == node && idx == Digits(n, order + 1)[order]
      requires node in nodes && idx < |nodes[node]|
      modifies `nodes
      ensures Valid() && Contents() == Put(old(Contents()), n, page)
    {
      hide Shape, Pages, Pow16, Digits, Put;
      SetShape(nodes, root, order, layout, Digits(n, order + 1)[..order], idx, page);
      SetPages(nodes, root, order, layout, n, page);
      nodes := WithSlot(nodes, node, idx, page);
    }
  }
}
