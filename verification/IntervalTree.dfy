/** The interval tree: the red-black tree of lib/rb_tree.c with the event callbacks
    that lib/interval_tree.c installs. */
module IntervalTrees {
  import opened Base
  import opened RbModel
  import opened IntervalModel
  import opened ChainModel
  import opened DeleteModel
  import opened SearchModel
  import opened GapModel

  /** What freeing node `z` makes of the ends of the list: the node counts twice, so the first two
      cases ask of a tree that is already empty, or of an end that is already past. */
  function Ends(ch: Chain, nodes: nat, z: Id, above: Id): Chain {
    if nodes == 1 then Chain(NIL, NIL, ch.next, ch.prev)
    else if z == ch.first then Chain(if nodes == 2 then ch.last else above, ch.last, ch.next, ch.prev)
    else if z == ch.last then Chain(ch.first, above, ch.next, ch.prev)
    else ch
  }

  lemma EndsKept(ch: Chain, q: seq<Id>, nodes: nat, z: Id, above: Id)
    requires Linked(ch, q) && nodes == 2 * |q| + 1 && z !in q && z != NIL
    ensures Ends(ch, nodes, z, above) == ch
  {
    ChainEnds(ch, q);
  }

  lemma SentinelIn(s: Store, g: Aug, t: Tree, exact: bool, q: seq<Id>)
    requires At(s, g, Top, t, NIL, exact, q)
    ensures NIL in s.m
  {
  }

  /** A node without children that is not the root. */
  /** A node hung below the only node there is. */
  lemma BelowOne(p: Path, t: Tree, z: Id)
    requires |Inorder(t)| == 1 && Plug(p, Nil) == t && ColorOf(t) == Black
    ensures PathColor(p) == Black && RootId(Blacken(Plug(p, Node(Nil, z, Red, Nil)))) == RootId(t)
  {
    OrderPlug(p, Nil);
    PathLength(p);
  }

  lemma PathLength(p: Path)
    ensures !p.Top? ==> |Before(p)| + |After(p)| > if p.up.Top? then 0 else 1
  {
    if !p.Top? {
      PathLength(p.up);
    }
  }

  predicate ChildlessBelow(s: Store, z: Id) {
    z in s.m && s.m[z].left == NIL && s.m[z].right == NIL && s.m[z].parent != NIL
  }

  lemma ChildlessAt(s: Store, g: Aug, p: Path, t: Tree, exact: bool, q: seq<Id>)
    requires At(s, g, p, t, NIL, exact, q) && t.Node?
    ensures ChildlessBelow(s, t.id) ==> t.l.Nil? && t.r.Nil? && !p.Top? && s.m[t.id].parent == Above(p)
    ensures t.id in s.m && s.m[t.id].color == t.c
  {
    hide At;
    AtFields(s, g, p, t, NIL, exact, q);
    var left, right := LeftOf(p, t.id, t.c, t.r), RightOf(p, t.id, t.c, t.l);
    AtUp(s, g, left, t.l, NIL, exact, q);
    AtUp(s, g, right, t.r, NIL, exact, q);
    if t.l.Node? {
      AtFields(s, g, left, t.l, NIL, exact, q);
    }
    if t.r.Node? {
      AtFields(s, g, right, t.r, NIL, exact, q);
    }
  }

  /** Where the search looks after an interval, or from the start when there is none. */
  function AfterNode(iv: map<Id, Interval>, from: nat, prev: Id): nat {
    if prev != NIL && prev in iv then Max(from, iv[prev].end) else from
  }

  lemma OneAligns()
    ensures Alignment(1) && forall a :: Alignment(a) ==> a > 0
  {
  }

  /** When nothing fits, the range that is returned may overlap what is stored: after an interval
      that fills the address space, aligning wraps to 0. */
  lemma NothingFits()
    ensures
      var iv, all := map[1 := Interval(0, U64_MAX)], Interval(0, U64_MAX);
      && Between(iv, [1], 0, U64_MAX) && !SomeFits(iv, [1], 0, 1, 0x1000)
      && AlignedInterval(AfterNode(iv, 0, 1), 1, 0x1000) == Interval(0, 1) && Overlaps(Interval(0, 1), all)
  {
    var iv, q := map[1 := Interval(0, U64_MAX)], [1];
    forall c: nat
      ensures !Fits(iv, q, 0, 1, 0x1000, c)
    {
      assert q[0] in iv && (Fits(iv, q, 0, 1, 0x1000, c) ==> !Overlaps(Interval(c, c + 1), iv[q[0]]));
    }
    PageAligns();
    AlignMacro(U64_MAX, 0x1000);
    hide PowerOfTwo, Align64;
    assert AlignUp(U64_MAX, 0x1000) == U64;
  }

  lemma PageAligns()
    ensures PowerOfTwo(0x1000)
  {
    assert PowerOfTwo(0x10);
    assert PowerOfTwo(0x100);
  }

  class IntervalTree {
    /** The root, and the links and colours of the nodes. */
    var s: Store
    /** The interval, the max and the min of each node. */
    var g: Aug
    /** The tree's min and max, and the next and prev links of the nodes. */
    var ch: Chain
    var nodes: nat
    /** What each interval was inserted with. */
    /** What each node holds, and null for the sentinel. */
    var val: map<Id, nat>

    ghost var tree: Tree
    /** No node was deleted yet. */
    ghost var exact: bool

    ghost predicate Valid()
      reads this
    {
      && At(s, g, Top, tree, NIL, exact, Inorder(tree))
      && RB(tree) && ColorOf(tree) == Black
      && Linked(ch, Inorder(tree)) && nodes == 2 * |Inorder(tree)|
      && Known(Ids(tree), g.iv, val) && NIL in val && val[NIL] == 0
    }

    /** The stored intervals with their data. */
    ghost function Contents(): set<(Interval, nat)>
      requires Valid()
      reads this
    {
      Pairs(Ids(tree), g.iv, val)
    }

    constructor ()
      ensures Valid() && exact && Contents() == {} && tree == Nil
    {
      s := Store(NIL, map[NIL := Rec(NIL, NIL, NIL, Black)]);
      g := Aug(map[], map[], map[]);
      ch := Chain(NIL, NIL, map[], map[]);
      nodes, val := 0, map[NIL := 0];
      tree, exact := Nil, true;
    }

    ghost predicate HasStart(start: nat)
      reads this
      requires Valid()
    {
      exists i :: i in Ids(tree) && g.iv[i].start == start
    }

    /** Recomputes min and max from a node up to the root. */
    method RecalculateMinMax(z: Id, ghost p: Path, ghost t: Tree, ghost n: Id, ghost exact: bool)
      requires Focus(s, p, t) && Pending(g, p, t, n, exact) && t.id == z
      modifies `g
      ensures AugFocus(g, p, t, n, exact)
      ensures g.mx.Keys == old(g.mx.Keys) && g.mn.Keys == old(g.mn.Keys) && g.iv == old(g.iv)
    {
      hide Focus, AugTree, AugSides, AugSpine, Lo, Hi;
      FocusFields(s, p, t);
      var x := z;
      ghost var q, u := p, t;
      while x != NIL
        invariant g.mx.Keys == old(g.mx.Keys) && g.mn.Keys == old(g.mn.Keys) && g.iv == old(g.iv)
        invariant x != NIL ==> Focus(s, q, u) && Pending(g, q, u, n, exact) && u.id == x
        invariant Plug(q, u) == Plug(p, t)
        invariant x == NIL ==> AugFocus(g, Top, Plug(p, t), n, exact)
        decreases x != NIL, q
      {
        FocusFields(s, q, u);
        Climb(s, g, q, u, n, exact);
        g := Recomputed(g, x, s.m[x].left, s.m[x].right);
        x := s.m[x].parent;
        if q != Top {
          u, q := Parent(q, u), q.up;
        }
      }
      AugUnplug(g, p, t, n, exact);
    }


    /** The relinking of a left rotation. */
    method RelinkLeft(x: Id, ghost p: Path, ghost t: Tree)
      requires Focus(s, p, t) && t.Node? && t.id == x && t.r.Node?
      modifies `s
      ensures Focus(s, p, RotL(t)) && s.m[NIL] == old(s.m[NIL])
    {
      hide Focus;
      RotLFields(s, p, t);
      var y := s.m[x].right;
      s := SetRight(s, x, s.m[y].left);
      if s.m[y].left != NIL {
        s := SetParent(s, s.m[y].left, x);
      }
      s := SetParent(s, y, s.m[x].parent);
      if s.m[x].parent == NIL {
        s := s.(root := y);
      } else if x == s.m[s.m[x].parent].left {
        s := SetLeft(s, s.m[x].parent, y);
      } else {
        s := SetRight(s, s.m[x].parent, y);
      }
      s := SetLeft(s, y, x);
      s := SetParent(s, x, y);
      RotatedLFocus(old(s), s, p, t);
    }

    /** The relinking of a right rotation. */
    method RelinkRight(x: Id, ghost p: Path, ghost t: Tree)
      requires Focus(s, p, t) && t.Node? && t.id == x && t.l.Node?
      modifies `s
      ensures Focus(s, p, RotR(t)) && s.m[NIL] == old(s.m[NIL])
    {
      hide Focus;
      RotRFields(s, p, t);
      var y := s.m[x].left;
      s := SetLeft(s, x, s.m[y].right);
      if s.m[y].right != NIL {
        s := SetParent(s, s.m[y].right, x);
      }
      s := SetParent(s, y, s.m[x].parent);
      if s.m[x].parent == NIL {
        s := s.(root := y);
      } else if x == s.m[s.m[x].parent].left {
        s := SetLeft(s, s.m[x].parent, y);
      } else {
        s := SetRight(s, s.m[x].parent, y);
      }
      s := SetRight(s, y, x);
      s := SetParent(s, x, y);
      RotatedRFocus(old(s), s, p, t);
    }

    method RotateLeft(x: Id, ghost p: Path, ghost t: Tree, ghost n: Id, ghost exact: bool, ghost q: seq<Id>)
      requires At(s, g, p, t, n, exact, q) && t.Node? && t.id == x && t.r.Node?
      modifies `s, `g
      ensures At(s, g, p, RotL(t), n, exact, q) && s.m[NIL] == old(s.m[NIL])
      ensures g.iv == old(g.iv)
    {
      hide AugFocus, Pending;
      FocusApart(s, p, t);
      RotLPending(g, p, t, n, exact);
      var y := s.m[x].right;
      RelinkLeft(x, p, t);
      g := Handed(g, x, y);
      ghost var p', t' := LeftOf(p, t.r.id, t.r.c, t.r.r), Node(t.l, t.id, t.c, t.r.l);
      FocusUp(s, p', t');
      RecalculateMinMax(x, p', t', n, exact);
      AugUp(g, p', t', n, exact);
      RotLInorder(t);
    }

    method RotateRight(x: Id, ghost p: Path, ghost t: Tree, ghost n: Id, ghost exact: bool, ghost q: seq<Id>)
      requires At(s, g, p, t, n, exact, q) && t.Node? && t.id == x && t.l.Node?
      modifies `s, `g
      ensures At(s, g, p, RotR(t), n, exact, q) && s.m[NIL] == old(s.m[NIL])
      ensures g.iv == old(g.iv)
    {
      hide AugFocus, Pending;
      FocusApart(s, p, t);
      RotRPending(g, p, t, n, exact);
      var y := s.m[x].left;
      RelinkRight(x, p, t);
      g := Handed(g, x, y);
      ghost var p', t' := RightOf(p, t.l.id, t.l.c, t.l.l), Node(t.l.r, t.id, t.c, t.r);
      FocusUp(s, p', t');
      RecalculateMinMax(x, p', t', n, exact);
      AugUp(g, p', t', n, exact);
      RotRInorder(t);
    }

    /** The red-uncle case of the insert repair. */
    method Recolor(z: Id, ghost p: Path, ghost t: Tree, ghost n: Id, ghost exact: bool, ghost q: seq<Id>)
        returns (z': Id, ghost t': Tree)
      requires At(s, g, p, t, n, exact, q) && RedAt(p, t) && t.id == z && PathColor(p) == Red
      requires ColorOf(p.up.sib) == Red
      modifies `s
      ensures !p.up.Top? && At(s, g, p.up.up, t', n, exact, q) && RedAt(p.up.up, t') && t'.id == z'
      ensures s.m[NIL] == old(s.m[NIL])
    {
      hide At;
      RecolorUp(p, t);
      ghost var a, u := Colored(p, Black), Parent(Colored(p, Black), t);
      ghost var b := Beside(p.up, Blacken(p.up.sib));
      AtFields(s, g, p, t, n, exact, q);
      AtUp(s, g, p, t, n, exact, q);
      AtFields(s, g, p.up, Parent(p, t), n, exact, q);

      var grand := s.m[s.m[z].parent].parent;
      var uncle := if s.m[z].parent == s.m[grand].left then s.m[grand].right else s.m[grand].left;
      AtPaintAbove(s, g, p, t, n, exact, q, Black);
      s := SetColor(s, s.m[z].parent, Black);
      AtUp(s, g, a, t, n, exact, q);
      AtPaintBeside(s, g, p.up, u, n, exact, q, Black);
      s := SetColor(s, uncle, Black);
      AtPaintAbove(s, g, b, u, n, exact, q, Red);
      s := SetColor(s, grand, Red);
      AtUp(s, g, Colored(b, Red), u, n, exact, q);
      z', t' := grand, Parent(Colored(b, Red), u);
    }

    /** The black-uncle case of the insert repair, below a left child. */
    method TurnRight(z0: Id, ghost p0: Path, ghost t0: Tree, ghost n: Id, ghost exact: bool, ghost q: seq<Id>)
        returns (z: Id, ghost p: Path, ghost t: Tree)
      requires At(s, g, p0, t0, n, exact, q) && RedAt(p0, t0) && t0.id == z0 && PathColor(p0) == Red
      requires p0.up.LeftOf? && ColorOf(p0.up.sib) == Black
      modifies `s, `g
      ensures At(s, g, p, t, n, exact, q) && RedAt(p, t) && t.id == z && PathColor(p) == Black
      ensures s.m[NIL] == old(s.m[NIL]) && g.iv == old(g.iv)
    {
      hide At, RB, RBPath, BlackHeight;
      z, p, t := z0, p0, t0;
      AtFields(s, g, p, t, n, exact, q);
      AtUp(s, g, p, t, n, exact, q);
      if z == s.m[s.m[z].parent].right {
        z := s.m[z].parent;
        InnerTurn(p, t);
        RotateLeft(z, p.up, Parent(p, t), n, exact, q);
        p, t := LeftOf(p.up, t.id, Red, t.r), Node(p.sib, p.id, Red, t.l);
        AtUp(s, g, p, t, n, exact, q);
        AtFields(s, g, p, t, n, exact, q);
      }
      OuterTurn(p, t);
      AtPaintAbove(s, g, p, t, n, exact, q, Black);
      s := SetColor(s, s.m[z].parent, Black);
      ghost var u := Parent(Colored(p, Black), t);
      AtUp(s, g, Colored(p, Black), t, n, exact, q);
      AtFields(s, g, p.up, u, n, exact, q);
      AtFields(s, g, Colored(p, Black), t, n, exact, q);
      AtPaintAbove(s, g, p.up, u, n, exact, q, Red);
      s := SetColor(s, s.m[s.m[z].parent].parent, Red);
      AtUp(s, g, Colored(p.up, Red), u, n, exact, q);
      AtFields(s, g, Colored(p.up, Red), u, n, exact, q);
      RotateRight(s.m[s.m[z].parent].parent, p.up.up, Parent(Colored(p.up, Red), u), n, exact, q);
      p := LeftOf(p.up.up, p.id, Black, Node(p.sib, p.up.id, Red, p.up.sib));
      AtUp(s, g, p, t, n, exact, q);
    }

    /** The black-uncle case of the insert repair, below a right child. */
    method TurnLeft(z0: Id, ghost p0: Path, ghost t0: Tree, ghost n: Id, ghost exact: bool, ghost q: seq<Id>)
        returns (z: Id, ghost p: Path, ghost t: Tree)
      requires At(s, g, p0, t0, n, exact, q) && RedAt(p0, t0) && t0.id == z0 && PathColor(p0) == Red
      requires p0.up.RightOf? && ColorOf(p0.up.sib) == Black
      modifies `s, `g
      ensures At(s, g, p, t, n, exact, q) && RedAt(p, t) && t.id == z && PathColor(p) == Black
      ensures s.m[NIL] == old(s.m[NIL]) && g.iv == old(g.iv)
    {
      hide At, RB, RBPath, BlackHeight;
      z, p, t := z0, p0, t0;
      AtFields(s, g, p, t, n, exact, q);
      AtUp(s, g, p, t, n, exact, q);
      if z == s.m[s.m[z].parent].left {
        z := s.m[z].parent;
        InnerTurn(p, t);
        RotateRight(z, p.up, Parent(p, t), n, exact, q);
        p, t := RightOf(p.up, t.id, Red, t.l), Node(t.r, p.id, Red, p.sib);
        AtUp(s, g, p, t, n, exact, q);
        AtFields(s, g, p, t, n, exact, q);
      }
      OuterTurn(p, t);
      AtPaintAbove(s, g, p, t, n, exact, q, Black);
      s := SetColor(s, s.m[z].parent, Black);
      ghost var u := Parent(Colored(p, Black), t);
      AtUp(s, g, Colored(p, Black), t, n, exact, q);
      AtFields(s, g, p.up, u, n, exact, q);
      AtFields(s, g, Colored(p, Black), t, n, exact, q);
      AtPaintAbove(s, g, p.up, u, n, exact, q, Red);
      s := SetColor(s, s.m[s.m[z].parent].parent, Red);
      AtUp(s, g, Colored(p.up, Red), u, n, exact, q);
      AtFields(s, g, Colored(p.up, Red), u, n, exact, q);
      RotateLeft(s.m[s.m[z].parent].parent, p.up.up, Parent(Colored(p.up, Red), u), n, exact, q);
      p := RightOf(p.up.up, p.id, Black, Node(p.up.sib, p.up.id, Red, p.sib));
      AtUp(s, g, p, t, n, exact, q);
    }

    /** insert_fixup: repairs the tree around a red node just put in at the end of `p0`. */
    method InsertFixup(z0: Id, ghost p0: Path, ghost t0: Tree, ghost n: Id, ghost exact: bool, ghost q: seq<Id>)
        returns (ghost tree: Tree)
      requires At(s, g, p0, t0, n, exact, q) && RedAt(p0, t0) && t0.id == z0
      modifies `s, `g
      ensures At(s, g, Top, tree, n, exact, q) && RB(tree) && ColorOf(tree) == Black
      ensures s.m[NIL] == old(s.m[NIL]) && g.iv == old(g.iv)
      ensures PathColor(p0) == Black ==> tree == Blacken(Plug(p0, t0))
    {
      hide At, RB, RBPath, BlackHeight;
      var z := z0;
      ghost var p, t := p0, t0;
      AtFields(s, g, p, t, n, exact, q);
      while s.m[s.m[z].parent].color == Red
        invariant At(s, g, p, t, n, exact, q) && RedAt(p, t) && t.id == z
        invariant z in s.m && s.m[z].parent == Above(p) && Above(p) in s.m && NIL in s.m
        invariant s.m[Above(p)].color == PathColor(p)
        invariant s.m[NIL] == old(s.m[NIL]) && g.iv == old(g.iv)
        invariant PathColor(p0) == Black ==> p == p0 && t == t0
        decreases PathColor(p) == Red, p
      {
        RedGrand(p, t);
        AtFields(s, g, p, t, n, exact, q);
        AtUp(s, g, p, t, n, exact, q);
        AtFields(s, g, p.up, Parent(p, t), n, exact, q);
        var grand := s.m[s.m[z].parent].parent;
        if s.m[z].parent == s.m[grand].left {
          var y := s.m[grand].right;
          if s.m[y].color == Red {
            z, t := Recolor(z, p, t, n, exact, q);
            p := p.up.up;
          } else {
            z, p, t := TurnRight(z, p, t, n, exact, q);
          }
        } else {
          var y := s.m[grand].left;
          if s.m[y].color == Red {
            z, t := Recolor(z, p, t, n, exact, q);
            p := p.up.up;
          } else {
            z, p, t := TurnLeft(z, p, t, n, exact, q);
          }
        }
        AtFields(s, g, p, t, n, exact, q);
      }
      RBPlug(p, t);
      PlugNode(p, t);
      AtPlug(s, g, p, t, n, exact, q);
      tree := Plug(p, t);
      AtFields(s, g, Top, tree, n, exact, q);
      AtPaint(s, g, Top, tree, n, exact, q, Black);
      s := SetColor(s, s.root, Black);
      BlackenRB(tree);
      tree := Blacken(tree);
    }

    // ----- delete_fixup -----

    /** Red sibling of a left child. */
    method RedSiblingRight(x: Id, ghost p: Path, ghost t: Tree, ghost n: Id, ghost exact: bool, ghost q: seq<Id>)
        returns (ghost p': Path)
      requires At(s, g, p, t, n, exact, q) && LinkedUp(s, p, t) && x == RootId(t)
      requires Short(p, t) && ColorOf(t) == Black && p.LeftOf? && ColorOf(p.sib) == Red
      modifies `s, `g
      ensures At(s, g, p', t, n, exact, q) && LinkedUp(s, p', t) && Short(p', t)
      ensures p'.LeftOf? && p'.id == p.id && p'.sib.Node? && p'.sib.c == Black && p'.c == Red
      ensures g.iv == old(g.iv) && s.m[NIL] == old(s.m[NIL])
    {
      hide At, Short;
      RedSibling(p, t);
      AtAbove(s, g, p, t, n, exact, q);
      var w := s.m[s.m[x].parent].right;
      AtPaintBeside(s, g, p, t, n, exact, q, Black);
      s := SetColor(s, w, Black);
      ghost var sib := p.sib.(c := Black);
      ghost var a := LeftOf(p.up, p.id, p.c, sib);
      AtAbove(s, g, a, t, n, exact, q);
      AtPaintAbove(s, g, a, t, n, exact, q, Red);
      s := SetColor(s, s.m[x].parent, Red);
      ghost var b := LeftOf(p.up, p.id, Red, sib);
      AtUp(s, g, b, t, n, exact, q);
      RotateLeft(s.m[x].parent, p.up, Parent(b, t), n, exact, q);
      p' := LeftOf(LeftOf(p.up, p.sib.id, Black, p.sib.r), p.id, Red, p.sib.l);
      AtUp(s, g, p', t, n, exact, q);
      AtUp(s, g, p'.up, Parent(p', t), n, exact, q);
      AtAbove(s, g, p', t, n, exact, q);
      if t.Node? {
        AtFields(s, g, p', t, n, exact, q);
      }
    }

    /** Red sibling of a right child. */
    method RedSiblingLeft(x: Id, ghost p: Path, ghost t: Tree, ghost n: Id, ghost exact: bool, ghost q: seq<Id>)
        returns (ghost p': Path)
      requires At(s, g, p, t, n, exact, q) && LinkedUp(s, p, t) && x == RootId(t)
      requires Short(p, t) && ColorOf(t) == Black && p.RightOf? && ColorOf(p.sib) == Red
      modifies `s, `g
      ensures At(s, g, p', t, n, exact, q) && LinkedUp(s, p', t) && Short(p', t)
      ensures p'.RightOf? && p'.id == p.id && p'.sib.Node? && p'.sib.c == Black && p'.c == Red
      ensures g.iv == old(g.iv) && s.m[NIL] == old(s.m[NIL])
    {
      hide At, Short;
      RedSibling(p, t);
      AtAbove(s, g, p, t, n, exact, q);
      var w := s.m[s.m[x].parent].left;
      AtPaintBeside(s, g, p, t, n, exact, q, Black);
      s := SetColor(s, w, Black);
      ghost var sib := p.sib.(c := Black);
      ghost var a := RightOf(p.up, p.id, p.c, sib);
      AtAbove(s, g, a, t, n, exact, q);
      AtPaintAbove(s, g, a, t, n, exact, q, Red);
      s := SetColor(s, s.m[x].parent, Red);
      ghost var b := RightOf(p.up, p.id, Red, sib);
      AtUp(s, g, b, t, n, exact, q);
      RotateRight(s.m[x].parent, p.up, Parent(b, t), n, exact, q);
      p' := RightOf(RightOf(p.up, p.sib.id, Black, p.sib.l), p.id, Red, p.sib.r);
      AtUp(s, g, p', t, n, exact, q);
      AtUp(s, g, p'.up, Parent(p', t), n, exact, q);
      AtAbove(s, g, p', t, n, exact, q);
      if t.Node? {
        AtFields(s, g, p', t, n, exact, q);
      }
    }

    /** Black sibling of a left child, at least one of whose children is red. */
    method FillLeft(x: Id, ghost p0: Path, ghost t: Tree, ghost n: Id, ghost exact: bool, ghost q: seq<Id>)
        returns (ghost tree: Tree)
      requires At(s, g, p0, t, n, exact, q) && LinkedUp(s, p0, t) && x == RootId(t)
      requires Short(p0, t) && ColorOf(t) == Black && p0.LeftOf? && p0.sib.Node? && p0.sib.c == Black
      requires ColorOf(p0.sib.l) == Red || ColorOf(p0.sib.r) == Red
      modifies `s, `g
      ensures At(s, g, Top, tree, n, exact, q) && RB(tree) && Short(Top, tree) && tree.Node?
      ensures g.iv == old(g.iv) && s.m[NIL] == old(s.m[NIL])
    {
      hide At, Short, RB;
      ghost var p := p0;
      AtAbove(s, g, p, t, n, exact, q);
      var w := s.m[s.m[x].parent].right;
      if s.m[s.m[w].right].color == Black {
        NearNephew(p, t);
        p := LiftNear(w, p, t, n, exact, q);
        AtAbove(s, g, p, t, n, exact, q);
        w := s.m[s.m[x].parent].right;
      }
      FarNephew(p, t);
      ghost var a, sib := Across(p, t), p.sib;
      AtAcross(s, g, p, t, n, exact, q);
      AtPaint(s, g, a, sib, n, exact, q, p.c);
      s := SetColor(s, w, s.m[s.m[x].parent].color);
      sib := sib.(c := p.c);
      AtPaintAbove(s, g, a, sib, n, exact, q, Black);
      s := SetColor(s, s.m[x].parent, Black);
      a := RightOf(p.up, p.id, Black, t);
      ghost var far := RightOf(a, sib.id, sib.c, sib.l);
      AtUp(s, g, far, sib.r, n, exact, q);
      AtPaint(s, g, far, sib.r, n, exact, q, Black);
      s := SetColor(s, s.m[w].right, Black);
      AtUp(s, g, far, Blacken(sib.r), n, exact, q);
      sib := sib.(r := Blacken(sib.r));
      AtUp(s, g, a, sib, n, exact, q);
      RotateLeft(s.m[x].parent, p.up, Node(t, p.id, Black, sib), n, exact, q);
      ghost var t' := Node(Node(t, p.id, Black, p.sib.l), p.sib.id, p.c, Blacken(p.sib.r));
      AtPlug(s, g, p.up, t', n, exact, q);
      tree := Plug(p.up, t');
      PlugNode(p.up, t');
    }

    /** The near red child of a left child's sibling takes the sibling's place. */
    method LiftNear(w: Id, ghost p: Path, ghost t: Tree, ghost n: Id, ghost exact: bool, ghost q: seq<Id>)
        returns (ghost p': Path)
      requires At(s, g, p, t, n, exact, q) && LinkedUp(s, p, t)
      requires p.LeftOf? && p.sib.Node? && p.sib.id == w && ColorOf(p.sib.l) == Red
      modifies `s, `g
      ensures At(s, g, p', t, n, exact, q) && LinkedUp(s, p', t)
      ensures p' == LeftOf(p.up, p.id, p.c, RotR(p.sib.(c := Red, l := Blacken(p.sib.l))))
      ensures g.iv == old(g.iv) && s.m[NIL] == old(s.m[NIL])
    {
      hide At;
      AtAbove(s, g, p, t, n, exact, q);
      ghost var a, sib := Across(p, t), p.sib;
      AtAcross(s, g, p, t, n, exact, q);
      ghost var near := LeftOf(a, sib.id, sib.c, sib.r);
      AtUp(s, g, near, sib.l, n, exact, q);
      AtPaint(s, g, near, sib.l, n, exact, q, Black);
      s := SetColor(s, s.m[w].left, Black);
      AtUp(s, g, near, Blacken(sib.l), n, exact, q);
      sib := sib.(l := Blacken(sib.l));
      AtPaint(s, g, a, sib, n, exact, q, Red);
      s := SetColor(s, w, Red);
      sib := sib.(c := Red);
      RotateRight(w, a, sib, n, exact, q);
      p' := LeftOf(p.up, p.id, p.c, RotR(sib));
      AtAcross(s, g, p', t, n, exact, q);
      AtAbove(s, g, p', t, n, exact, q);
      if t.Node? {
        AtFields(s, g, p', t, n, exact, q);
      }
    }
    /** Black sibling of a right child, at least one of whose children is red. */
    method FillRight(x: Id, ghost p0: Path, ghost t: Tree, ghost n: Id, ghost exact: bool, ghost q: seq<Id>)
        returns (ghost tree: Tree)
      requires At(s, g, p0, t, n, exact, q) && LinkedUp(s, p0, t) && x == RootId(t)
      requires Short(p0, t) && ColorOf(t) == Black && p0.RightOf? && p0.sib.Node? && p0.sib.c == Black
      requires ColorOf(p0.sib.r) == Red || ColorOf(p0.sib.l) == Red
      modifies `s, `g
      ensures At(s, g, Top, tree, n, exact, q) && RB(tree) && Short(Top, tree) && tree.Node?
      ensures g.iv == old(g.iv) && s.m[NIL] == old(s.m[NIL])
    {
      hide At, Short, RB;
      ghost var p := p0;
      AtAbove(s, g, p, t, n, exact, q);
      var w := s.m[s.m[x].parent].left;
      if s.m[s.m[w].left].color == Black {
        NearNephew(p, t);
        p := LiftNearRight(w, p, t, n, exact, q);
        AtAbove(s, g, p, t, n, exact, q);
        w := s.m[s.m[x].parent].left;
      }
      FarNephew(p, t);
      ghost var a, sib := Across(p, t), p.sib;
      AtAcross(s, g, p, t, n, exact, q);
      AtPaint(s, g, a, sib, n, exact, q, p.c);
      s := SetColor(s, w, s.m[s.m[x].parent].color);
      sib := sib.(c := p.c);
      AtPaintAbove(s, g, a, sib, n, exact, q, Black);
      s := SetColor(s, s.m[x].parent, Black);
      a := LeftOf(p.up, p.id, Black, t);
      ghost var far := LeftOf(a, sib.id, sib.c, sib.r);
      AtUp(s, g, far, sib.l, n, exact, q);
      AtPaint(s, g, far, sib.l, n, exact, q, Black);
      s := SetColor(s, s.m[w].left, Black);
      AtUp(s, g, far, Blacken(sib.l), n, exact, q);
      sib := sib.(l := Blacken(sib.l));
      AtUp(s, g, a, sib, n, exact, q);
      RotateRight(s.m[x].parent, p.up, Node(sib, p.id, Black, t), n, exact, q);
      ghost var t' := Node(Blacken(p.sib.l), p.sib.id, p.c, Node(p.sib.r, p.id, Black, t));
      AtPlug(s, g, p.up, t', n, exact, q);
      tree := Plug(p.up, t');
      PlugNode(p.up, t');
    }

    /** The near red child of a right child's sibling takes the sibling's place. */
    method LiftNearRight(w: Id, ghost p: Path, ghost t: Tree, ghost n: Id, ghost exact: bool, ghost q: seq<Id>)
        returns (ghost p': Path)
      requires At(s, g, p, t, n, exact, q) && LinkedUp(s, p, t)
      requires p.RightOf? && p.sib.Node? && p.sib.id == w && ColorOf(p.sib.r) == Red
      modifies `s, `g
      ensures At(s, g, p', t, n, exact, q) && LinkedUp(s, p', t)
      ensures p' == RightOf(p.up, p.id, p.c, RotL(p.sib.(c := Red, r := Blacken(p.sib.r))))
      ensures g.iv == old(g.iv) && s.m[NIL] == old(s.m[NIL])
    {
      hide At;
      AtAbove(s, g, p, t, n, exact, q);
      ghost var a, sib := Across(p, t), p.sib;
      AtAcross(s, g, p, t, n, exact, q);
      ghost var near := RightOf(a, sib.id, sib.c, sib.l);
      AtUp(s, g, near, sib.r, n, exact, q);
      AtPaint(s, g, near, sib.r, n, exact, q, Black);
      s := SetColor(s, s.m[w].right, Black);
      AtUp(s, g, near, Blacken(sib.r), n, exact, q);
      sib := sib.(r := Blacken(sib.r));
      AtPaint(s, g, a, sib, n, exact, q, Red);
      s := SetColor(s, w, Red);
      sib := sib.(c := Red);
      RotateLeft(w, a, sib, n, exact, q);
      p' := RightOf(p.up, p.id, p.c, RotL(sib));
      AtAcross(s, g, p', t, n, exact, q);
      AtAbove(s, g, p', t, n, exact, q);
      if t.Node? {
        AtFields(s, g, p', t, n, exact, q);
      }
    }

    /** delete_fixup: repairs the tree around a subtree that is one black node short. */
    method DeleteFixup(x0: Id, ghost p0: Path, ghost t0: Tree, ghost n: Id, ghost exact: bool, ghost q: seq<Id>)
        returns (ghost tree: Tree)
      requires At(s, g, p0, t0, n, exact, q) && LinkedUp(s, p0, t0) && x0 == RootId(t0) && Short(p0, t0)
      modifies `s, `g
      ensures At(s, g, Top, tree, n, exact, q) && RB(tree) && ColorOf(tree) == Black
      ensures g.iv == old(g.iv) && s.m[NIL] == old(s.m[NIL])
    {
      hide At, Short, RB;
      var x := x0;
      ghost var p, t := p0, t0;
      AtAbove(s, g, p, t, n, exact, q);
      while x != s.root && s.m[x].color == Black
        invariant At(s, g, p, t, n, exact, q) && LinkedUp(s, p, t) && x == RootId(t) && Short(p, t)
        invariant p.Top? <==> s.root == x
        invariant g.iv == old(g.iv) && NIL in s.m && s.m[NIL] == old(s.m[NIL])
        decreases !p.Top? && ColorOf(t) == Black, p
      {
        ShortSibling(p, t);
        AtAbove(s, g, p, t, n, exact, q);
        if x == s.m[s.m[x].parent].left {
          x, p, t := RepairLeft(x, p, t, n, exact, q);
        } else {
          x, p, t := RepairRight(x, p, t, n, exact, q);
        }
        AtAbove(s, g, p, t, n, exact, q);
      }
      AtAbove(s, g, p, t, n, exact, q);
      PaidBack(p, t);
      if t.Node? {
        AtPaint(s, g, p, t, n, exact, q, Black);
        PlugNode(p, Blacken(t));
      } else {
        assert SetColor(s, NIL, Black) == s;
      }
      s := SetColor(s, x, Black);
      tree := Plug(p, Blacken(t));
      AtPlug(s, g, p, Blacken(t), n, exact, q);
    }

    /** One turn of delete_fixup, at a left child. */
    method RepairLeft(x: Id, ghost p0: Path, ghost t0: Tree, ghost n: Id, ghost exact: bool, ghost q: seq<Id>)
        returns (x': Id, ghost p: Path, ghost t: Tree)
      requires At(s, g, p0, t0, n, exact, q) && LinkedUp(s, p0, t0) && x == RootId(t0) && Short(p0, t0)
      requires p0.LeftOf? && ColorOf(t0) == Black
      modifies `s, `g
      ensures At(s, g, p, t, n, exact, q) && LinkedUp(s, p, t) && x' == RootId(t) && Short(p, t)
      ensures p == p0.up || p.Top? || ColorOf(t) == Red
      ensures g.iv == old(g.iv) && s.m[NIL] == old(s.m[NIL])
    {
      hide At, Short, RB;
      p, t := p0, t0;
      ShortSibling(p, t);
      AtAbove(s, g, p, t, n, exact, q);
      var w := s.m[s.m[x].parent].right;
      if s.m[w].color == Red {
        p := RedSiblingRight(x, p, t, n, exact, q);
        AtAbove(s, g, p, t, n, exact, q);
        w := s.m[s.m[x].parent].right;
      }
      if s.m[s.m[w].left].color == Black && s.m[s.m[w].right].color == Black {
        x', p, t := PushUp(x, w, p, t, n, exact, q);
      } else {
        t := FillLeft(x, p, t, n, exact, q);
        x', p := s.root, Top;
        AtFields(s, g, p, t, n, exact, q);
      }
    }

    /** One turn of delete_fixup, at a right child. */
    method RepairRight(x: Id, ghost p0: Path, ghost t0: Tree, ghost n: Id, ghost exact: bool, ghost q: seq<Id>)
        returns (x': Id, ghost p: Path, ghost t: Tree)
      requires At(s, g, p0, t0, n, exact, q) && LinkedUp(s, p0, t0) && x == RootId(t0) && Short(p0, t0)
      requires p0.RightOf? && ColorOf(t0) == Black
      modifies `s, `g
      ensures At(s, g, p, t, n, exact, q) && LinkedUp(s, p, t) && x' == RootId(t) && Short(p, t)
      ensures p == p0.up || p.Top? || ColorOf(t) == Red
      ensures g.iv == old(g.iv) && s.m[NIL] == old(s.m[NIL])
    {
      hide At, Short, RB;
      p, t := p0, t0;
      ShortSibling(p, t);
      AtAbove(s, g, p, t, n, exact, q);
      var w := s.m[s.m[x].parent].left;
      if s.m[w].color == Red {
        p := RedSiblingLeft(x, p, t, n, exact, q);
        AtAbove(s, g, p, t, n, exact, q);
        w := s.m[s.m[x].parent].left;
      }
      if s.m[s.m[w].right].color == Black && s.m[s.m[w].left].color == Black {
        x', p, t := PushUp(x, w, p, t, n, exact, q);
      } else {
        t := FillRight(x, p, t, n, exact, q);
        x', p := s.root, Top;
        AtFields(s, g, p, t, n, exact, q);
      }
    }

    /** Black sibling with two black children: it turns red, and the parent is next. */
    method PushUp(x: Id, w: Id, ghost p: Path, ghost t: Tree, ghost n: Id, ghost exact: bool, ghost q: seq<Id>)
        returns (x': Id, ghost p': Path, ghost t': Tree)
      requires At(s, g, p, t, n, exact, q) && LinkedUp(s, p, t) && x == RootId(t) && Short(p, t)
      requires ColorOf(t) == Black && !p.Top? && p.sib.Node? && p.sib.c == Black && w == p.sib.id
      requires ColorOf(p.sib.l) == Black && ColorOf(p.sib.r) == Black
      modifies `s
      ensures At(s, g, p', t', n, exact, q) && LinkedUp(s, p', t') && x' == RootId(t') && Short(p', t')
      ensures p' == p.up && ColorOf(t') == p.c
      ensures s.m[NIL] == old(s.m[NIL])
    {
      hide At, Short;
      BlackNephews(p, t);
      AtAbove(s, g, p, t, n, exact, q);
      AtPaintBeside(s, g, p, t, n, exact, q, Red);
      s := SetColor(s, w, Red);
      ghost var b := Beside(p, p.sib.(c := Red));
      AtUp(s, g, b, t, n, exact, q);
      x', p', t' := s.m[x].parent, p.up, Parent(b, t);
      AtFields(s, g, p', t', n, exact, q);
    }

    // ----- insert_node -----

    /** Walks down to where an interval that overlaps nothing belongs. */
    method FindSlot(i: Interval) returns (y: Id, ghost p: Path)
      requires Valid() && i.start < i.end <= U64_MAX
      requires forall j :: j in Ids(tree) ==> j in g.iv && !Overlaps(i, g.iv[j])
      ensures At(s, g, p, Nil, NIL, exact, Inorder(tree)) && y == Above(p) && Plug(p, Nil) == tree
      ensures Lo(g, p) <= i.start && i.end <= Hi(g, p)
      ensures p.LeftOf? ==> y in g.iv && i.start < g.iv[y].start
      ensures p.RightOf? ==> y in g.iv && i.start >= g.iv[y].start
    {
      hide At, RB;
      var x := s.root;
      y := NIL;
      p := Top;
      ghost var t := tree;
      AtAbove(s, g, p, t, NIL, exact, Inorder(tree));
      while x != NIL
        invariant At(s, g, p, t, NIL, exact, Inorder(tree)) && x == RootId(t) && y == Above(p)
        invariant Ids(t) <= Ids(tree) && Plug(p, t) == tree
        invariant Lo(g, p) <= i.start && i.end <= Hi(g, p)
        invariant p.LeftOf? ==> y in g.iv && i.start < g.iv[y].start
        invariant p.RightOf? ==> y in g.iv && i.start >= g.iv[y].start
        decreases t
      {
        AtInterval(s, g, p, t, NIL, exact, Inorder(tree));
        AtFields(s, g, p, t, NIL, exact, Inorder(tree));
        assert x in Ids(tree);
        y := x;
        if i.start < g.iv[x].start {
          x := s.m[x].left;
          p, t := LeftOf(p, t.id, t.c, t.r), t.l;
        } else {
          x := s.m[x].right;
          p, t := RightOf(p, t.id, t.c, t.l), t.r;
        }
        AtUp(s, g, p, t, NIL, exact, Inorder(tree));
      }
      if t.Node? {
        AtFields(s, g, p, t, NIL, exact, Inorder(tree));
      }
    }

    /** Puts a node that was hung below `y` into the list, before the first larger one. */
    method LinkNode(z: Id, ghost q: seq<Id>) returns (ghost k: nat)
      requires Linked(ch, q) && NoDup(q) && z != NIL && z !in q && nodes == 2 * |q|
      requires Between(g.iv, q, 0, U64_MAX) && z in g.iv
      modifies `ch
      ensures k <= |q| && Linked(ch, InsertAt(q, k, z))
      ensures forall i :: 0 <= i < k ==> g.iv[q[i]].start < g.iv[z].start
      ensures k < |q| ==> g.iv[q[k]].start >= g.iv[z].start
    {
      hide InsertAt;
      if nodes == 0 {
        k := 0;
        LinkedIn(ch, q, k, z);
        ch := Chain(z, z, ch.next[z := NIL], ch.prev[z := NIL]);
      } else {
        var curr := ch.first;
        k := 0;
        while curr != NIL && g.iv[curr].start < g.iv[z].start
          invariant k <= |q| && curr == Nth(q, k)
          invariant forall i :: 0 <= i < k ==> g.iv[q[i]].start < g.iv[z].start
          decreases |q| - k
        {
          assert LinkAt(ch, q, k);
          curr, k := ch.next[curr], k + 1;
        }
        LinkedIn(ch, q, k, z);
        if k < |q| {
          assert LinkAt(ch, q, k) && q[k] in q;
        }
        assert LinkAt(ch, q, |q| - 1) && q[0] in q && q[|q| - 1] in q;
        if k > 0 {
          assert q[k - 1] in q;
        }
        if curr == NIL {
          ch := Chain(ch.first, z, ch.next[ch.last := z][z := NIL], ch.prev[z := ch.last]);
        } else if curr == ch.first {
          NthInjective(q, 0, k);
          ch := Chain(z, ch.last, ch.next[z := ch.first], ch.prev[ch.first := z][z := NIL]);
        } else {
          var before := ch.prev[curr];
          ch := Chain(ch.first, ch.last, ch.next[before := z][z := curr], ch.prev[curr := z][z := before]);
        }
      }
    }

    /** Hangs the new node `z` below `y`. */
    method HangNode(z: Id, y: Id, i: Interval, junkMax: nat, junkMin: nat, ghost p: Path, ghost q: seq<Id>)
      requires At(s, g, p, Nil, NIL, exact, q) && y == Above(p) && z != NIL && z !in s.m
      requires i.start < i.end && Lo(g, p) <= i.start && i.end <= Hi(g, p)
      requires p.LeftOf? ==> y in g.iv && i.start < g.iv[y].start
      requires p.RightOf? ==> y in g.iv && i.start >= g.iv[y].start
      modifies `s, `g
      ensures At(s, g, p, Node(Nil, z, Red, Nil), z, exact, Before(p) + [z] + After(p))
      ensures g.iv == old(g.iv)[z := i]
    {
      hide AugFocus, Focus, Lo, Hi;
      AtAbove(s, g, p, Nil, NIL, exact, q);
      FocusApart(s, p, Nil);
      FreshOutside(s, p, z);
      ghost var s0, g0 := s, g;
      g := Aug(g.iv[z := i], g.mx[z := junkMax], g.mn[z := junkMin]);
      HungAug(g0, g, p, z, exact);
      s := s.(m := s.m[z := Rec(NIL, NIL, y, Red)]);
      if y == NIL {
        s := s.(root := z);
      } else if g.iv[z].start < g.iv[y].start {
        s := SetLeft(s, y, z);
      } else {
        s := SetRight(s, y, z);
      }
      HungFocus(s0, s, p, z);
      assert Inorder(Node(Nil, z, Red, Nil)) == [z];
    }

    /** The first half of insert_node: the node is hung in the tree and put into the list. */
    method PlaceNode(z: Id, i: Interval, junkMax: nat, junkMin: nat) returns (ghost p: Path, ghost k: nat)
      requires Valid() && z != NIL && z !in s.m && i.start < i.end <= U64_MAX
      requires forall j :: j in Ids(tree) ==> j in g.iv && !Overlaps(i, g.iv[j])
      modifies `s, `g, `ch
      ensures k <= |Inorder(tree)|
      ensures At(s, g, p, Node(Nil, z, Red, Nil), z, exact, InsertAt(Inorder(tree), k, z))
      ensures RedAt(p, Node(Nil, z, Red, Nil))
      ensures Linked(ch, InsertAt(Inorder(tree), k, z))
      ensures g.iv == old(g.iv)[z := i] && Plug(p, Nil) == tree
    {
      hide At, RB, RedAt, Lo, Hi, InsertAt, Plug, Inorder, Ids, Known, Linked, NoDup;
      ghost var q := Inorder(tree);
      var y;
      y, p := FindSlot(i);
      HungRed(p, z);
      SlotOrder(s, g, p, exact, q, z, i);
      HangNode(z, y, i, junkMax, junkMin, p, q);
      k := LinkNode(z, q);
      SlotPlace(s, g, p, exact, q, k, z);
    }

    /** post_insert_callback: min and max are recomputed from the new node up. */
    method Settle(z: Id, ghost q: seq<Id>)
      requires At(s, g, Top, tree, z, exact, q) && z in Ids(tree) && z != NIL
      modifies `g
      ensures At(s, g, Top, tree, NIL, exact, q) && g.iv == old(g.iv)
    {
      hide At, Focus, AugFocus, Pending, Ids, Locate;
      AtLocate(s, g, Top, tree, z, exact, q, z);
      ghost var (p, t) := Locate(Top, tree, z);
      ReadyAt(s, g, p, t, z, exact, q);
      ghost var g' := g;
      RecalculateMinMax(z, p, t, NIL, exact);
      ReadyDone(s, g', g, p, t, z, exact, q);
    }

    /** insert_node, with the callback that recomputes min and max from the new node up. */
    method InsertNode(z: Id, i: Interval, junkMax: nat, junkMin: nat)
      requires Valid() && z != NIL && z !in s.m && i.start < i.end <= U64_MAX
      requires forall j :: j in Ids(tree) ==> j in g.iv && !Overlaps(i, g.iv[j])
      modifies `s, `g, `ch, `nodes, `tree
      ensures At(s, g, Top, tree, NIL, exact, Inorder(tree)) && RB(tree) && ColorOf(tree) == Black
      ensures Linked(ch, Inorder(tree)) && nodes == old(nodes) + 1
      ensures Ids(tree) == old(Ids(tree)) + {z} && z !in old(Ids(tree))
      ensures |Inorder(tree)| == old(|Inorder(tree)|) + 1
      ensures g.iv == old(g.iv)[z := i]
      ensures old(|Inorder(tree)|) == 1 ==> RootId(tree) == old(RootId(tree))
    {
      hide At, RB, RedAt, InsertAt, Linked, Focus, AugFocus, Pending, Between, NoDup, Ids, Plug, Blacken, Inorder,
        Known, Contents, Locate;
      FreshId(s, g, tree, NIL, exact, Inorder(tree), z);
      ghost var p, k;
      p, k := PlaceNode(z, i, junkMax, junkMin);
      ghost var q := InsertAt(Inorder(tree), k, z);
      if |Inorder(tree)| == 1 {
        BelowOne(p, tree, z);
      }
      ghost var t := InsertFixup(z, p, Node(Nil, z, Red, Nil), z, exact, q);
      nodes := nodes + 1;
      AtOrder(s, g, t, z, exact, q);
      InsertedIds(tree, t, k, z);
      tree := t;
      Settle(z, q);
    }

    /** intvl_tree_insert: `z` is the address of the new node, whose min and max are not set yet. */
    method Insert(z: Id, i: Interval, v: nat, junkMax: nat, junkMin: nat)
      requires Valid() && z != NIL && z !in s.m && i.start < i.end <= U64_MAX
      requires forall j :: j in Ids(tree) ==> j in g.iv && !Overlaps(i, g.iv[j])
      modifies this
      ensures Valid() && exact == old(exact)
      ensures Contents() == old(Contents()) + {(i, v)}
      ensures Ids(tree) == old(Ids(tree)) + {z} && g.iv == old(g.iv)[z := i] && val == old(val)[z := v]
      ensures |Inorder(tree)| == old(|Inorder(tree)|) + 1
      ensures old(|Inorder(tree)|) == 1 ==> RootId(tree) == old(RootId(tree))
    {
      hide At, RB, InsertAt, NoDup, Ids, Pairs, Linked, Inorder, Between, Overlaps;
      FreshId(s, g, tree, NIL, exact, Inorder(tree), z);
      PairsInsert(Ids(tree), g.iv, val, z, i, v);
      val := val[z := v];
      InsertNode(z, i, junkMax, junkMin);
      ghost var q := Inorder(tree);
      AtOrder(s, g, tree, NIL, exact, q);
      Extremes(g.iv, q, z);
      ChainEnds(ch, q);
      ch := if nodes == 0 then ch.(first := z, last := z)
            else if g.iv[z].start < g.iv[ch.first].start then ch.(first := z)
            else if g.iv[z].start >= g.iv[ch.last].start then ch.(last := z)
            else ch;
      nodes := nodes + 1;
    }

    // ----- delete_node -----

    /** The least node at or below `x0`. */
    method Minimum(x0: Id, ghost base: Path, ghost t: Tree, ghost q: seq<Id>)
        returns (x: Id, ghost ip: Path, ghost u: Tree)
      requires At(s, g, base, t, NIL, false, q) && t.Node? && t.id == x0
      ensures u.Node? && u.id == x && u.l.Nil? && Plug(ip, u) == t && Before(ip) == []
      ensures At(s, g, Graft(ip, base), u, NIL, false, q)
    {
      hide At;
      x, ip, u := x0, Top, t;
      AtFields(s, g, base, u, NIL, false, q);
      while s.m[x].left != NIL
        invariant u.Node? && u.id == x && Plug(ip, u) == t && Before(ip) == []
        invariant At(s, g, Graft(ip, base), u, NIL, false, q)
        invariant x in s.m && s.m[x].left == RootId(u.l)
        decreases u
      {
        x := s.m[x].left;
        ip, u := LeftOf(ip, u.id, u.c, u.r), u.l;
        AtUp(s, g, Graft(ip, base), u, NIL, false, q);
        AtFields(s, g, Graft(ip, base), u, NIL, false, q);
      }
      if u.l.Node? {
        ghost var down := LeftOf(Graft(ip, base), u.id, u.c, u.r);
        AtUp(s, g, down, u.l, NIL, false, q);
        AtFields(s, g, down, u.l, NIL, false, q);
      }
    }

    /** The successor `y`, already spliced out of its own place, takes the place of `z`. */
    method TakeFar(z: Id, y: Id, ghost p: Path, ghost t: Tree)
      requires Focus(s, p, t) && t.Node? && t.id == z && t.l.Node? && t.r.Node?
      requires y != NIL && y in s.m && y !in Ids(t) && y !in PathIds(p)
      modifies `s
      ensures Taken(old(s), s, p, t, y) && s.m[NIL] == old(s.m[NIL])
    {
      hide Focus, TakeOver;
      TakeNames(s, p, t, y);
      s := SetRight(s, y, s.m[z].right);
      s := SetParent(s, s.m[y].right, y);
      TakeOverIs(s, p, z, t.l.id, t.r.id, t.c, y);
      s := TakeOver(s, z, y);
    }

    /** The successor `y`, the right child of `z`, takes its place. */
    method TakeNear(z: Id, y: Id, x: Id, ghost p: Path, ghost t: Tree)
      requires Focus(s, p, t) && t.Node? && t.id == z && t.l.Node?
      requires t.r.Node? && t.r.l.Nil? && t.r.id == y && x == RootId(t.r.r)
      modifies `s
      ensures y in old(s.m) && x in old(s.m) && z in old(s.m) && old(s.m[y].parent) == z
      ensures Taken(ReplaceLinks(old(s), y, x), s, p, Node(t.l, z, t.c, t.r.r), y)
      ensures s.m[x].parent == y
    {
      NearTaken(s, p, t);
      hide Focus, TakeOver, Taken;
      s := SetParent(s, x, y);
      s := TakeOver(s, z, y);
    }

    /** Splices out a node with at most one child. */
    method DetachLone(z: Id, x: Id, ghost p: Path, ghost t: Tree, ghost r: Tree, ghost q: seq<Id>)
      requires At(s, g, p, t, NIL, false, q) && Lone(t, r) && t.id == z && x == RootId(r)
      modifies `s, `g
      ensures At(s, g, p, r, NIL, false, Without(p, t)) && LinkedUp(s, p, r)
      ensures g.iv == old(g.iv) && (x == NIL ==> g == old(g))
    {
      hide AugFocus, Order;
      LoneReplaced(s, p, t, r);
      ghost var s' := ReplaceLinks(s, z, x);
      AtSpliced(s, s', g, p, t, r, true, q);
      WithoutLone(p, t, r);
      if x != NIL {
        g := Handed(g, z, x);
      }
      s := ReplaceLinks(s, z, x);
    }

    /** Takes out a node whose right child is its successor. */
    method DetachNear(z: Id, y: Id, x: Id, ghost p: Path, ghost t: Tree, ghost q: seq<Id>)
      requires At(s, g, p, t, NIL, false, q) && t.Node? && Successor(t, Top, t.r) && t.l.Node?
      requires t.id == z && t.r.id == y && x == RootId(t.r.r)
      modifies `s, `g
      ensures At(s, g, RightOf(p, y, t.c, t.l), t.r.r, NIL, false, Without(p, t))
      ensures LinkedUp(s, RightOf(p, y, t.c, t.l), t.r.r)
      ensures g.iv == old(g.iv)
    {
      hide AugFocus, Order, Focus, Taken, ReplaceLinks;
      SuccessorFacts(s, g, p, t, Top, t.r, q);
      AtNear(s, g, p, t, q);
      ghost var s1 := ReplaceLinks(s, y, x);
      ghost var q1 := Order(RightOf(p, t.id, t.c, t.l), t.r.r);
      TakeNear(z, y, x, p, t);
      AtTaken(s1, s, g, p, Shrunk(t, Top, t.r), y, q1);
      g := Handed(g, z, y);
      WithoutTaken(p, t, Top, t.r);
      AtOldPlace(s, g, p, t, Top, t.r, Without(p, t));
      AtAbove(s, g, RightOf(p, y, t.c, t.l), t.r.r, NIL, false, Without(p, t));
      if t.r.r.Node? {
        AtFields(s, g, RightOf(p, y, t.c, t.l), t.r.r, NIL, false, Without(p, t));
      }
    }

    /** Takes out a node whose successor is further down. */
    method DetachFar(z: Id, y: Id, x: Id, ghost p: Path, ghost t: Tree, ghost ip: Path, ghost u: Tree, ghost q: seq<Id>)
      requires At(s, g, p, t, NIL, false, q) && Successor(t, ip, u) && t.l.Node? && !ip.Top?
      requires t.id == z && u.id == y && x == RootId(u.r)
      modifies `s, `g
      ensures At(s, g, Graft(ip, RightOf(p, y, t.c, t.l)), u.r, NIL, false, Without(p, t))
      ensures LinkedUp(s, Graft(ip, RightOf(p, y, t.c, t.l)), u.r)
      ensures g.iv == old(g.iv)
    {
      hide AugFocus, Order, Focus, Taken, ReplaceLinks;
      SuccessorFacts(s, g, p, t, ip, u, q);
      AtFar(s, g, p, t, ip, u, q);
      RootPlug(ip, u.r, u);
      ghost var base := RightOf(p, t.id, t.c, t.l);
      ghost var q1 := Order(Graft(ip, base), u.r);
      if x != NIL {
        g := Handed(g, y, x);
      }
      s := ReplaceLinks(s, y, x);
      ghost var s1, t1 := s, Shrunk(t, ip, u);
      assert y in s.m;
      TakeFar(z, y, p, t1);
      AtTaken(s1, s, g, p, t1, y, q1);
      g := Handed(g, z, y);
      WithoutTaken(p, t, ip, u);
      AtOldPlace(s, g, p, t, ip, u, Without(p, t));
      ghost var p' := Graft(ip, RightOf(p, y, t.c, t.l));
      AtAbove(s, g, p', u.r, NIL, false, Without(p, t));
      if u.r.Node? {
        AtFields(s, g, p', u.r, NIL, false, Without(p, t));
      }
    }

    /** The removal of a node from the tree, before any repair. */
    method Detach(z: Id, ghost p: Path, ghost t: Tree, ghost q: seq<Id>)
        returns (x: Id, orig: Color, ghost p': Path, ghost u: Tree)
      requires At(s, g, p, t, NIL, false, q) && t.Node? && t.id == z
      requires RB(Plug(p, t)) && ColorOf(Plug(p, t)) == Black
      modifies `s, `g
      ensures At(s, g, p', u, NIL, false, Without(p, t)) && x == RootId(u) && LinkedUp(s, p', u)
      ensures orig == Black ==> Short(p', u)
      ensures orig == Red ==> RB(Plug(p', u)) && ColorOf(Plug(p', u)) == Black
      ensures g.iv == old(g.iv)
      ensures t.l.Nil? && t.r.Nil? ==> p' == p && u == Nil && orig == t.c && g == old(g)
    {
      hide At, RB, RBPath, Short, Order, Without;
      RBUnplug(p, t);
      AtFields(s, g, p, t, NIL, false, q);
      ghost var base := RightOf(p, z, t.c, t.l);
      AtUp(s, g, base, t.r, NIL, false, q);
      AtUp(s, g, LeftOf(p, z, t.c, t.r), t.l, NIL, false, q);
      AtAbove(s, g, base, t.r, NIL, false, q);
      AtAbove(s, g, LeftOf(p, z, t.c, t.r), t.l, NIL, false, q);
      orig := s.m[z].color;
      if s.m[z].left == NIL {
        x, p', u := s.m[z].right, p, t.r;
        DetachLone(z, x, p, t, u, q);
        LoneColors(p, t, u);
      } else if s.m[z].right == NIL {
        x, p', u := s.m[z].left, p, t.l;
        DetachLone(z, x, p, t, u, q);
        LoneColors(p, t, u);
      } else {
        x, orig, p', u := DetachTwo(z, p, t, q);
      }
    }

    /** The removal of a node with two children. */
    method DetachTwo(z: Id, ghost p: Path, ghost t: Tree, ghost q: seq<Id>)
        returns (x: Id, orig: Color, ghost p': Path, ghost u': Tree)
      requires At(s, g, p, t, NIL, false, q) && t.Node? && t.id == z && t.l.Node? && t.r.Node?
      requires RB(Plug(p, t)) && ColorOf(Plug(p, t)) == Black
      modifies `s, `g
      ensures At(s, g, p', u', NIL, false, Without(p, t)) && x == RootId(u') && LinkedUp(s, p', u')
      ensures orig == Black ==> Short(p', u')
      ensures orig == Red ==> RB(Plug(p', u')) && ColorOf(Plug(p', u')) == Black
      ensures g.iv == old(g.iv)
    {
      hide At, RB, RBPath, Short, Order, Without;
      ghost var base := RightOf(p, z, t.c, t.l);
      AtFields(s, g, p, t, NIL, false, q);
      AtUp(s, g, base, t.r, NIL, false, q);
      var y; ghost var ip, u;
      y, ip, u := Minimum(s.m[z].right, base, t.r, q);
      SuccessorColors(p, t, ip, u);
      AtFields(s, g, Graft(ip, base), u, NIL, false, q);
      orig := s.m[y].color;
      x := s.m[y].right;
      AboveGraft(s, g, ip, base, u, q);
      p', u' := Graft(ip, RightOf(p, y, t.c, t.l)), u.r;
      if s.m[y].parent == z {
        DetachNear(z, y, x, p, t, q);
      } else {
        DetachFar(z, y, x, p, t, ip, u, q);
      }
      LoneColors(p', Node(Nil, y, orig, u'), u');
    }

    /** Takes the node out of the list. */
    method UnlinkNode(z: Id, ghost q: seq<Id>, ghost k: nat)
      requires Linked(ch, q) && NoDup(q) && k < |q| && q[k] == z
      modifies `ch
      ensures Linked(ch, RemoveAt(q, k))
    {
      hide RemoveAt;
      assert LinkAt(ch, q, k);
      LinkedOut(ch, q, k);
      var before, after := ch.prev[z], ch.next[z];
      if k > 0 {
        assert LinkAt(ch, q, k - 1) && q[k - 1] in q;
      }
      if k + 1 < |q| {
        assert LinkAt(ch, q, k + 1) && q[k + 1] in q;
      }
      if before != NIL {
        ch := ch.(next := ch.next[before := after]);
      } else {
        ch := ch.(first := after);
      }
      if after != NIL {
        ch := ch.(prev := ch.prev[after := before]);
      } else {
        ch := ch.(last := before);
      }
    }

    /** The repair that a black node taken out calls for. */
    method Mend(x: Id, orig: Color, ghost p: Path, ghost u: Tree, ghost q: seq<Id>) returns (ghost t: Tree)
      requires At(s, g, p, u, NIL, false, q) && x == RootId(u) && LinkedUp(s, p, u)
      requires orig == Black ==> Short(p, u)
      requires orig == Red ==> RB(Plug(p, u)) && ColorOf(Plug(p, u)) == Black
      modifies `s, `g
      ensures At(s, g, Top, t, NIL, false, q) && RB(t) && ColorOf(t) == Black
      ensures g.iv == old(g.iv) && NIL in s.m && s.m[NIL] == old(s.m[NIL]) && (orig == Red ==> g == old(g))
    {
      hide At, RB, Short;
      AtAbove(s, g, p, u, NIL, false, q);
      if orig == Black {
        t := DeleteFixup(x, p, u, NIL, false, q);
      } else {
        t := Plug(p, u);
        AtPlug(s, g, p, u, NIL, false, q);
      }
      AtAbove(s, g, Top, t, NIL, false, q);
    }

    /** The first half of delete_node: the node is taken out of list and tree. */
    method CutNode(z: Id) returns (x: Id, orig: Color, ghost p: Path, ghost u: Tree, ghost k: nat)
      requires Valid() && z in Ids(tree)
      modifies `s, `g, `ch, `exact
      ensures k < |Inorder(tree)| && Inorder(tree)[k] == z && !exact
      ensures At(s, g, p, u, NIL, false, RemoveAt(Inorder(tree), k)) && x == RootId(u) && LinkedUp(s, p, u)
      ensures Linked(ch, RemoveAt(Inorder(tree), k)) && NoDup(Inorder(tree))
      ensures orig == Black ==> Short(p, u)
      ensures orig == Red ==> RB(Plug(p, u)) && ColorOf(Plug(p, u)) == Black
      ensures g.iv == old(g.iv)
      ensures ChildlessBelow(old(s), z) ==>
        NIL in s.m && s.m[NIL].parent == old(s.m[z].parent) && orig == old(s.m[z].color) && g == old(g)
    {
      hide At, RB, Linked, NoDup, Between, Short, Order, Without, Ids, RemoveAt;
      ghost var q := Inorder(tree);
      AtInexact(s, g, tree, exact, q);
      exact := false;
      AtOrder(s, g, tree, NIL, exact, q);
      AtLocate(s, g, Top, tree, NIL, exact, q, z);
      ghost var (p0, t) := Locate(Top, tree, z);
      k := |Before(p0)| + |Inorder(t.l)|;
      PlacedAt(p0, t);
      ChildlessAt(s, g, p0, t, exact, q);
      AtOrderIs(s, g, p0, t, NIL, exact, q);
      UnlinkNode(z, q, k);
      x, orig, p, u := Detach(z, p0, t, q);
    }

    /** delete_node. */
    method DeleteNode(z: Id)
      requires Valid() && z in Ids(tree)
      modifies `s, `g, `ch, `nodes, `tree, `exact
      ensures At(s, g, Top, tree, NIL, false, Inorder(tree)) && RB(tree) && ColorOf(tree) == Black && !exact
      ensures Linked(ch, Inorder(tree)) && nodes == old(nodes) - 1
      ensures Ids(tree) == old(Ids(tree)) - {z} && |Inorder(tree)| == old(|Inorder(tree)|) - 1
      ensures g.iv == old(g.iv)
      ensures ChildlessBelow(old(s), z) ==>
        && NIL in s.m && s.m[NIL].parent == old(s.m[z].parent)
        && (old(s.m[z].color) == Red ==> g == old(g))
    {
      hide At, RB, Linked, NoDup, Between, Short, Order, Without, Ids, RemoveAt;
      ghost var q := Inorder(tree);
      var x, orig; ghost var p, u, k;
      x, orig, p, u, k := CutNode(z);
      nodes := nodes - 1;
      ghost var t' := Mend(x, orig, p, u, RemoveAt(q, k));
      AtOrder(s, g, t', NIL, exact, RemoveAt(q, k));
      RemovedIds(tree, t', k);
      tree := t';
    }

    /** rb_tree_delete_node, which also frees the node. */
    method DeletePresent(z: Id) returns (v: nat)
      requires Valid() && z in Ids(tree)
      modifies this
      ensures Valid() && !exact
      ensures z in old(g.iv) && z in old(val) && v == old(val[z])
      ensures Contents() == old(Contents()) - {old((g.iv[z], val[z]))}
      ensures Ids(tree) == old(Ids(tree)) - {z} && g.iv == old(g.iv) && val == old(val)
      ensures ChildlessBelow(old(s), z) ==>
        && NIL in s.m && s.m[NIL].parent == old(s.m[z].parent)
        && (old(s.m[z].color) == Red ==> g == old(g))
    {
      hide At, RB, Linked, NoDup, Ids, Pairs, Ends, Inorder, Between;
      ghost var q := Inorder(tree);
      AtOrder(s, g, tree, NIL, exact, q);
      DistinctIntervals(g.iv, q, z);
      PairsRemove(Ids(tree), g.iv, val, z);
      DeleteNode(z);
      ghost var q' := Inorder(tree);
      AtOrder(s, g, tree, NIL, exact, q');
      var above := if z in s.m then s.m[z].parent else NIL;
      EndsKept(ch, q', nodes, z, above);
      ch := Ends(ch, nodes, z, above);
      nodes := nodes - 1;
      v := val[z];
      AtFreed(s, g, tree, q', z);
      s := s.(m := s.m - {z});
    }

    // ----- searching -----

    /** rb_tree_find_node, with the number of nodes it looks at. */
    method FindNode(key: nat) returns (x: Id, steps: nat)
      requires Valid()
      ensures x != NIL ==> x in Ids(tree) && x in g.iv && g.iv[x].start == key
      ensures x == NIL ==> forall i :: i in Ids(tree) ==> i in g.iv && g.iv[i].start != key
      ensures Pow2(steps) <= (|Inorder(tree)| + 1) * (|Inorder(tree)| + 1)
    {
      hide At, RB, Ids, Height, Linked, Pow2;
      ghost var q := Inorder(tree);
      ghost var p, t := Top, tree;
      AtInexact(s, g, tree, exact, q);
      AtAbove(s, g, p, t, NIL, false, q);
      LogHeight(tree);
      x, steps := s.root, 0;
      while x != NIL
        invariant At(s, g, p, t, NIL, false, q) && x == RootId(t)
        invariant Ids(t) <= Ids(tree) && steps + Height(t) <= Height(tree)
        invariant forall i :: i in Ids(tree) && g.iv[i].start == key ==> i in Ids(t)
        decreases t
      {
        AtKeyStep(s, g, p, t, q, key);
        steps := steps + 1;
        if key == g.iv[x].start {
          Pow2Mono(steps, Height(tree));
          return;
        }
        if key < g.iv[x].start {
          x := s.m[x].left;
          p, t := LeftOf(p, t.id, t.c, t.r), t.l;
        } else {
          x := s.m[x].right;
          p, t := RightOf(p, t.id, t.c, t.l), t.r;
        }
      }
      AtEmpty(s, g, p, t, NIL, false, q);
      Pow2Mono(steps, Height(tree));
    }

    /** intvl_tree_find: some stored interval that overlaps `i`, if there is one. */
    method Find(i: Interval) returns (x: Id, steps: nat)
      requires Valid()
      ensures x != NIL ==> x in Ids(tree) && x in g.iv && Overlaps(i, g.iv[x])
      ensures x == NIL ==> forall j :: j in Ids(tree) ==> j in g.iv && !Overlaps(i, g.iv[j])
      ensures Pow2(steps) <= (|Inorder(tree)| + 1) * (|Inorder(tree)| + 1)
    {
      hide At, RB, Ids, Height, Linked, Pow2, Intersection;
      ghost var q := Inorder(tree);
      ghost var p, t := Top, tree;
      AtInexact(s, g, tree, exact, q);
      AtAbove(s, g, p, t, NIL, false, q);
      LogHeight(tree);
      x, steps := s.root, 0;
      AtEmpty(s, g, p, t, NIL, false, q);
      if t.Node? {
        AtOverlapStep(s, g, p, t, q, i);
      }
      while x != NIL && !Overlaps(i, g.iv[x])
        invariant At(s, g, p, t, NIL, false, q) && x == RootId(t)
        invariant (x == NIL <==> t.Nil?) && (x != NIL ==> x in Ids(tree))
        invariant Ids(t) <= Ids(tree) && steps + Height(t) <= Height(tree)
        invariant forall j :: j in Ids(tree) && Overlaps(i, g.iv[j]) ==> j in Ids(t)
        decreases t
      {
        AtOverlapStep(s, g, p, t, q, i);
        steps := steps + 1;
        if s.m[x].left != NIL && GetMax(s.m[x].left) > i.start {
          x := s.m[x].left;
          p, t := LeftOf(p, t.id, t.c, t.r), t.l;
        } else {
          x := s.m[x].right;
          p, t := RightOf(p, t.id, t.c, t.l), t.r;
        }
        AtEmpty(s, g, p, t, NIL, false, q);
      }
      AtEmpty(s, g, p, t, NIL, false, q);
      Pow2Mono(steps, Height(tree));
    }

    function GetMax(i: Id): nat
      reads this
    { MaxOf(g, i) }

    /** intvl_tree_get_point: the data of the interval that holds a point. */
    method GetPoint(point: nat) returns (found: bool, v: nat)
      requires Valid() && point <= U64_MAX
      ensures found <==> exists e :: e in Contents() && e.0.start <= point < e.0.end
      ensures found ==> exists e :: e in Contents() && e.0.start <= point < e.0.end && e.1 == v
    {
      hide At, RB, Linked, Ids, Inorder;
      var x, _ := Find(Interval(point, (point + 1) % U64));
      AtOrder(s, g, tree, NIL, exact, Inorder(tree));
      PointOverlaps(Ids(tree), g.iv, val, Inorder(tree), point);
      found := x != NIL;
      v := if found then val[x] else 0;
      if found {
        assert (g.iv[x], val[x]) in Contents();
      }
    }

    /** The first node that starts at or above `from`, and its place in the list. */
    method FirstFrom(from: nat) returns (x: Id, ghost k: nat)
      requires Valid()
      ensures k <= |Inorder(tree)| && x == Nth(Inorder(tree), k)
      ensures forall i :: 0 <= i < |Inorder(tree)| ==>
        Inorder(tree)[i] in g.iv && (g.iv[Inorder(tree)[i]].start < from <==> i < k)
    {
      hide At, RB, Linked;
      ghost var q := Inorder(tree);
      ghost var p, t := Top, tree;
      AtInexact(s, g, tree, exact, q);
      AtAbove(s, g, p, t, NIL, false, q);
      AtEmpty(s, g, p, t, NIL, false, q);
      var current := s.root;
      x := NIL;
      while current != NIL
        invariant At(s, g, p, t, NIL, false, q) && current == RootId(t) && (t.Nil? <==> current == NIL)
        invariant x == Nth(After(p), 0)
        invariant SplitsAt(g.iv, p, from)
        decreases t
      {
        AtChildren(s, g, p, t, q);
        AtSplit(s, g, p, t, q, from);
        if g.iv[current].start >= from {
          x := current;
          current := s.m[current].left;
          p, t := LeftOf(p, t.id, t.c, t.r), t.l;
        } else {
          current := s.m[current].right;
          p, t := RightOf(p, t.id, t.c, t.l), t.r;
        }
        AtEmpty(s, g, p, t, NIL, false, q);
      }
      k := |Before(p)|;
      AtOrderIs(s, g, p, t, NIL, false, q);
      NilOrder(p);
    }

    /** intvl_tree_find_free_gap.  Alignments are powers of two; zero stands for one. */
    method FindFreeGap(i: Interval, align: nat) returns (r: Interval, prevNode: Id)
      requires Valid() && i.start <= U64_MAX && i.end <= U64_MAX && (align == 0 || Alignment(align))
      ensures tree.Nil? ==> r == i && prevNode == NIL
      ensures tree.Node? ==> r == AlignedInterval(AfterNode(g.iv, i.start, prevNode), SizeOf(i), Max(align, 1))
      ensures var q, size, a := Inorder(tree), SizeOf(i), Max(align, 1);
        tree.Node? && size > 0 && SomeFits(g.iv, q, i.start, size, a) ==>
          LeastGap(g.iv, q, i.start, size, a, r.start, prevNode) && r.end == r.start + size
    {
      hide At, RB, Linked, NoDup, AllFrom, Align64, CheckGap, LeastGap, SomeFits, GapStart, Between, Inorder, Ids,
        Alignment, SizeOf,
        AlignedInterval, Contents;
      var size := SizeOf(i);
      var a := if align == 0 then 1 else align;
      PowerPositive(align);
      OneAligns();
      ghost var q := Inorder(tree);
      AtAbove(s, g, Top, tree, NIL, exact, q);
      AtEmpty(s, g, Top, tree, NIL, exact, q);
      if s.root == NIL {
        return i, NIL;
      }
      AtOrder(s, g, tree, NIL, exact, q);

      var greater; ghost var k;
      greater, k := FirstFrom(i.start);
      GapEnds(g.iv, ch, q, k);
      var lesser := if greater != NIL then ch.prev[greater] else ch.last;
      var gapStart := if lesser != NIL then Max(i.start, g.iv[lesser].end) else i.start;
      if size > 0 {
        FirstGap(g.iv, q, i.start, size, a, k);
      }
      if greater != NIL && CheckGap(gapStart, g.iv[greater].start, size, a) {
        if size > 0 && SomeFits(g.iv, q, i.start, size, a) {
          GapTaken(g.iv, q, i.start, size, a, k, gapStart);
        }
        return AlignedInterval(gapStart, size, a), lesser;
      }
      r, prevNode := WalkGaps(i.start, size, a, greater, lesser, k);
    }

    /** The walk through the gaps from the node `current`, after `prev`, on. */
    method WalkGaps(from: nat, size: nat, a: nat, current0: Id, prev0: Id, ghost k0: nat)
        returns (r: Interval, prevNode: Id)
      requires Valid() && a > 0 && Alignment(a) && size < U64 && k0 <= |Inorder(tree)|
      requires current0 == Nth(Inorder(tree), k0) && prev0 == Nth(Inorder(tree), k0 - 1)
      requires prev0 != NIL ==> prev0 in g.iv
      requires var gap := if prev0 != NIL then Max(from, g.iv[prev0].end) else from;
        size > 0 ==> GapStart(g.iv, Inorder(tree), from, k0, gap) && AllFrom(g.iv, Inorder(tree), from, size, a, gap)
      ensures r == AlignedInterval(AfterNode(g.iv, from, prevNode), size, a)
      ensures size > 0 && SomeFits(g.iv, Inorder(tree), from, size, a) ==>
        LeastGap(g.iv, Inorder(tree), from, size, a, r.start, prevNode) && r.end == r.start + size
    {
      hide At, RB, Linked, NoDup, AllFrom, Align64, CheckGap, LeastGap, SomeFits, GapStart, Between, Inorder, Ids,
        AlignedInterval, Nth, Alignment;
      ghost var q, k := Inorder(tree), k0;
      AtOrder(s, g, tree, NIL, exact, q);
      var current, prev, currentStart := current0, prev0, from;
      var gapStart := if prev != NIL then Max(currentStart, g.iv[prev].end) else currentStart;
      while current != NIL
        invariant k <= |q| && current == Nth(q, k) && prev == Nth(q, k - 1)
        invariant prev != NIL ==> prev in g.iv
        invariant from <= currentStart <= AfterNode(g.iv, from, prev)
        invariant gapStart == if prev != NIL then Max(currentStart, g.iv[prev].end) else currentStart
        invariant size > 0 ==> GapStart(g.iv, q, from, k, gapStart) && AllFrom(g.iv, q, from, size, a, gapStart)
        decreases |q| - k
      {
        GapEnds(g.iv, ch, q, k);
        if CheckGap(gapStart, g.iv[current].start, size, a) {
          if size > 0 && SomeFits(g.iv, q, from, size, a) {
            GapTaken(g.iv, q, from, size, a, k, gapStart);
          }
          return AlignedInterval(gapStart, size, a), prev;
        }
        if size > 0 {
          NextGap(g.iv, q, from, size, a, k, gapStart);
        }
        currentStart := Max(currentStart, g.iv[current].end);
        prev, current, k := current, ch.next[current], k + 1;
        gapStart := if prev != NIL then Max(currentStart, g.iv[prev].end) else currentStart;
      }
      GapEnds(g.iv, ch, q, k);
      if size > 0 && SomeFits(g.iv, q, from, size, a) {
        GapTaken(g.iv, q, from, size, a, k, gapStart);
      }
      return AlignedInterval(gapStart, size, a), prev;
    }

    /** rb_tree_find_node and the test for the sentinel that follows it in rb_tree_find and
        rb_tree_delete.  The sentinel is told from a node by its parent link being its own address:
        the test is right exactly when a node was found or no delete has overwritten that link. */
    method Lookup(start: nat) returns (x: Id, found: bool)
      requires Valid()
      ensures NIL in s.m && (found <==> HasStart(start) || s.m[NIL].parent != NIL)
      ensures x != NIL <==> HasStart(start)
      ensures x != NIL ==> x in Ids(tree) && x in g.iv && g.iv[x].start == start
    {
      hide At, RB, Linked, Ids, Pairs;
      SentinelIn(s, g, tree, exact, Inorder(tree));
      var steps;
      x, steps := FindNode(start);
      found := !(x == NIL && s.m[x].parent == x);
      StartFound(x, start);
    }

    /** rb_tree_find.  What it returns is right whatever the test for the sentinel says, for the
        sentinel holds null. */
    method FindData(start: nat) returns (data: nat)
      requires Valid()
      ensures HasStart(start) ==> exists e :: e in Contents() && e.0.start == start && e.1 == data
      ensures !HasStart(start) ==> data == 0
    {
      hide At, RB, Linked, Ids, Pairs;
      var x, found := Lookup(start);
      if !found {
        return 0;
      }
      data := val[x];
      if x != NIL {
        PairsHas(Ids(tree), g.iv, val, x);
        assert (g.iv[x], val[x]) in Contents();
      }
    }

    lemma StartFound(x: Id, start: nat)
      requires Valid()
      requires x != NIL ==> x in Ids(tree) && x in g.iv && g.iv[x].start == start
      requires x == NIL ==> forall i :: i in Ids(tree) ==> i in g.iv && g.iv[i].start != start
      ensures HasStart(start) <==> x != NIL
    {
      hide At, RB, Linked;
    }

    /** intvl_tree_delete.  Where the test for the sentinel is wrong the source goes on to delete the
        sentinel; nothing is promised from there on. */
    method Delete(start: nat) returns (found: bool, v: nat, astray: bool)
      requires Valid()
      modifies this
      ensures old(NIL in s.m) && (astray <==> old(!HasStart(start) && s.m[NIL].parent != NIL))
      ensures !astray ==> Valid() && found == old(HasStart(start))
      ensures found ==>
        && !exact
        && exists e :: e in old(Contents()) && e.0.start == start && e.1 == v && Contents() == old(Contents()) - {e}
      ensures !found && !astray ==>
        Contents() == old(Contents()) && exact == old(exact) && s == old(s) && tree == old(tree)
    {
      hide At, RB, Linked, Ids, Pairs;
      var x;
      x, found := Lookup(start);
      v, astray := 0, false;
      if found && x == NIL {
        found, astray := false, true;
      } else if found {
        PairsHas(Ids(tree), g.iv, val, x);
        ghost var e := (g.iv[x], val[x]);
        v := DeletePresent(x);
      }
    }

    /** Before the first delete, the data of every node are those of its subtree's intervals. */
    lemma Exact(z: Id)
      requires Valid() && exact && z in Ids(tree)
      ensures var t := Locate(Top, tree, z).1;
        && z in Ids(t) && z in g.mx && z in g.mn
        && (forall i :: i in Ids(t) ==> i in g.iv && g.iv[i].end <= g.mx[z] && g.mn[z] <= g.iv[i].start)
        && (exists i :: i in Ids(t) && i in g.iv && g.iv[i].end == g.mx[z])
        && (exists i :: i in Ids(t) && i in g.iv && g.iv[i].start == g.mn[z])
    {
      var q := Inorder(tree);
      AtLocate(s, g, Top, tree, NIL, exact, q, z);
      var (p, t) := Locate(Top, tree, z);
      FocusApart(s, p, t);
      BelowTop(g, p, NIL, exact);
      ExactData(g, t, Lo(g, p), Hi(g, p));
    }
  }
}
