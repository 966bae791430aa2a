/** Red-black trees seen as values: the ghost tree that a linked store represents,
    the path from a node up to the root, and the invariants of both. */
module RbModel {
  import opened Base

  datatype Color = Red | Black

  datatype Tree = Nil | Node(l: Tree, id: Id, c: Color, r: Tree)

  /** The way from a subtree up to the root.  `LeftOf(up, id, c, sib)` says that the
      subtree is the left child of `id`, whose right child is `sib`. */
  datatype Path =
    | Top
    | LeftOf(up: Path, id: Id, c: Color, sib: Tree)
    | RightOf(up: Path, id: Id, c: Color, sib: Tree)

  /** The fields that make the nodes a tree. */
  datatype Rec = Rec(left: Id, right: Id, parent: Id, color: Color)
  datatype Store = Store(root: Id, m: map<Id, Rec>)

  // ----- identity and order -----

  function RootId(t: Tree): Id { if t.Nil? then NIL else t.id }

  function Above(p: Path): Id { if p.Top? then NIL else p.id }

  function ColorOf(t: Tree): Color { if t.Nil? then Black else t.c }

  function Ids(t: Tree): set<Id> {
    if t.Nil? then {} else Ids(t.l) + {t.id} + Ids(t.r)
  }

  function PathIds(p: Path): set<Id> {
    if p.Top? then {} else PathIds(p.up) + {p.id} + Ids(p.sib)
  }

  function Inorder(t: Tree): seq<Id> {
    if t.Nil? then [] else Inorder(t.l) + [t.id] + Inorder(t.r)
  }

  /** The nodes that come before, and after, the subtree at the end of a path. */
  function Before(p: Path): seq<Id> {
    match p
    case Top => []
    case LeftOf(up, _, _, _) => Before(up)
    case RightOf(up, id, _, sib) => Before(up) + Inorder(sib) + [id]
  }

  function After(p: Path): seq<Id> {
    match p
    case Top => []
    case LeftOf(up, id, _, sib) => [id] + Inorder(sib) + After(up)
    case RightOf(up, _, _, _) => After(up)
  }

  /** The subtree at the parent of the end of a path. */
  function Parent(p: Path, t: Tree): Tree
    requires !p.Top?
  {
    if p.LeftOf? then Node(t, p.id, p.c, p.sib) else Node(p.sib, p.id, p.c, t)
  }

  function Plug(p: Path, t: Tree): Tree {
    if p.Top? then t else Plug(p.up, Parent(p, t))
  }

  /** The whole in-order sequence. */
  function Order(p: Path, t: Tree): seq<Id> { Before(p) + Inorder(t) + After(p) }

  lemma OrderUp(p: Path, t: Tree)
    requires !p.Top?
    ensures Order(p.up, Parent(p, t)) == Order(p, t)
  {
    if p.LeftOf? {
      assert Before(p.up) + (Inorder(t) + [p.id] + Inorder(p.sib)) + After(p.up)
          == Before(p.up) + Inorder(t) + ([p.id] + Inorder(p.sib) + After(p.up));
    } else {
      assert Before(p.up) + (Inorder(p.sib) + [p.id] + Inorder(t)) + After(p.up)
          == (Before(p.up) + Inorder(p.sib) + [p.id]) + Inorder(t) + After(p.up);
    }
  }

  lemma OrderPlug(p: Path, t: Tree)
    ensures Inorder(Plug(p, t)) == Order(p, t)
  {
    if p.Top? {
      assert [] + Inorder(t) + [] == Inorder(t);
    } else {
      OrderUp(p, t);
      OrderPlug(p.up, Parent(p, t));
    }
  }

  ghost predicate Distinct(t: Tree) {
    t.Node? ==>
      && t.id !in Ids(t.l) && t.id !in Ids(t.r) && Ids(t.l) !! Ids(t.r)
      && Distinct(t.l) && Distinct(t.r)
  }

  ghost predicate DistinctPath(p: Path) {
    !p.Top? ==>
      && p.id !in Ids(p.sib) && p.id !in PathIds(p.up) && Ids(p.sib) !! PathIds(p.up)
      && Distinct(p.sib) && DistinctPath(p.up)
  }

  // ----- the store represents a tree -----

  /** `t` is laid out in `s`, and the parent link of its root is `p`. */
  ghost predicate Links(s: Store, t: Tree, p: Id) {
    t.Node? ==>
      && t.id != NIL && Holds(s, t.id, Rec(RootId(t.l), RootId(t.r), p, t.c))
      && Links(s, t.l, t.id) && Links(s, t.r, t.id)
  }

  ghost predicate Holds(s: Store, i: Id, n: Rec) { i in s.m && s.m[i] == n }

  /** The path is laid out in `s`, with the node `at` at its end. */
  ghost predicate PathLinks(s: Store, p: Path, at: Id) {
    if p.Top? then s.root == at else
      && p.id != NIL && Holds(s, p.id, PathRec(p, at))
      && Links(s, p.sib, p.id) && PathLinks(s, p.up, p.id)
  }

  function PathRec(p: Path, at: Id): Rec
    requires !p.Top?
  {
    if p.LeftOf? then Rec(at, RootId(p.sib), Above(p.up), p.c)
    else Rec(RootId(p.sib), at, Above(p.up), p.c)
  }

  /** The store holds `t` at the end of `p`: every link, every parent link and
      every colour is the ghost tree's, no node occurs twice, and the sentinel is black.
      The sentinel's own parent link is not constrained. */
  ghost predicate Focus(s: Store, p: Path, t: Tree) {
    && NIL in s.m && s.m[NIL].color == Black
    && PathLinks(s, p, RootId(t)) && Links(s, t, Above(p))
    && Distinct(t) && DistinctPath(p) && Ids(t) !! PathIds(p)
  }

  /** No node, and not the sentinel, occurs twice. */
  ghost predicate Apart(p: Path, t: Tree) {
    && Distinct(t) && DistinctPath(p) && Ids(t) !! PathIds(p)
    && NIL !in Ids(t) && NIL !in PathIds(p)
  }

  lemma FocusApart(s: Store, p: Path, t: Tree)
    requires Focus(s, p, t)
    ensures Apart(p, t)
  {
    NilOutsideTree(s, t, Above(p));
    NilOutsidePath(s, p, RootId(t));
  }

  lemma NilOutsideTree(s: Store, t: Tree, p: Id)
    requires Links(s, t, p)
    ensures NIL !in Ids(t)
  {
  }

  lemma NilOutsidePath(s: Store, p: Path, at: Id)
    requires PathLinks(s, p, at)
    ensures NIL !in PathIds(p)
  {
    if !p.Top? {
      NilOutsideTree(s, p.sib, p.id);
    }
  }

  /** Moving the focus between a node and its parent. */
  lemma FocusUp(s: Store, p: Path, t: Tree)
    ensures !p.Top? ==> (Focus(s, p, t) <==> Focus(s, p.up, Parent(p, t)))
  {
  }

  /** What the store holds at the focus. */
  lemma FocusFields(s: Store, p: Path, t: Tree)
    requires Focus(s, p, t) && t.Node?
    ensures t.id != NIL && Holds(s, t.id, Rec(RootId(t.l), RootId(t.r), Above(p), t.c))
    ensures NIL in s.m && s.m[NIL].color == Black && (p.Top? ==> s.root == t.id)
    ensures !p.Top? ==>
      && p.id != NIL && p.id != t.id && Holds(s, p.id, PathRec(p, t.id)) && RootId(p.sib) != t.id
  {
    assert t.id in Ids(t);
    if !p.Top? {
      assert p.id in PathIds(p);
      assert p.sib.Node? ==> p.sib.id in PathIds(p);
    }
  }

  /** Below the root, the root is a node of the path. */
  lemma RootInPath(s: Store, p: Path, at: Id)
    requires PathLinks(s, p, at) && !p.Top?
    ensures s.root in PathIds(p)
  {
    if !p.up.Top? {
      RootInPath(s, p.up, p.id);
    }
  }

  // ----- writing a field -----

  function SetLeft(s: Store, i: Id, v: Id): Store
    requires i in s.m
  { s.(m := s.m[i := s.m[i].(left := v)]) }

  function SetRight(s: Store, i: Id, v: Id): Store
    requires i in s.m
  { s.(m := s.m[i := s.m[i].(right := v)]) }

  function SetParent(s: Store, i: Id, v: Id): Store
    requires i in s.m
  { s.(m := s.m[i := s.m[i].(parent := v)]) }

  function SetColor(s: Store, i: Id, v: Color): Store
    requires i in s.m
  { s.(m := s.m[i := s.m[i].(color := v)]) }

  // ----- what an update leaves alone -----

  /** Only the nodes in `touched` may have changed. */
  ghost predicate Unchanged(s: Store, s': Store, touched: set<Id>) {
    forall i :: i in s.m && i !in touched ==> i in s'.m && s.m[i] == s'.m[i]
  }

  lemma UnchangedLinks(s: Store, s': Store, t: Tree, p: Id, touched: set<Id>)
    requires Links(s, t, p) && Unchanged(s, s', touched) && Ids(t) !! touched
    ensures Links(s', t, p)
  {
    if t.Node? {
      assert t.id in Ids(t);
      UnchangedLinks(s, s', t.l, t.id, touched);
      UnchangedLinks(s, s', t.r, t.id, touched);
    }
  }

  /** A subtree of which only the root's parent link changed. */
  lemma Reparented(s: Store, s': Store, t: Tree, p: Id, p': Id, touched: set<Id>)
    requires Links(s, t, p) && Distinct(t) && Unchanged(s, s', touched)
    requires Ids(t) * touched <= {RootId(t)}
    requires t.Node? ==> Holds(s', t.id, Rec(RootId(t.l), RootId(t.r), p', t.c))
    ensures Links(s', t, p')
  {
    if t.Node? {
      assert Ids(t.l) <= Ids(t) && Ids(t.r) <= Ids(t);
      UnchangedLinks(s, s', t.l, t.id, touched);
      UnchangedLinks(s, s', t.r, t.id, touched);
    }
  }

  /** The end of the path now is `at`, as far as the node above it, or the root, is concerned. */
  ghost predicate Relinked(s': Store, p: Path, at: Id, root: Id) {
    if p.Top? then s'.root == at else s'.root == root && Holds(s', p.id, PathRec(p, at))
  }

  lemma RelinkedPath(s: Store, s': Store, p: Path, at: Id, at': Id, touched: set<Id>)
    requires PathLinks(s, p, at) && DistinctPath(p) && Unchanged(s, s', touched)
    requires PathIds(p) * touched <= {Above(p)} && Relinked(s', p, at', s.root)
    ensures PathLinks(s', p, at')
  {
    if !p.Top? {
      assert Ids(p.sib) <= PathIds(p) && PathIds(p.up) <= PathIds(p);
      UnchangedLinks(s, s', p.sib, p.id, touched);
      if !p.up.Top? {
        assert p.up.id in PathIds(p.up);
        RelinkedPath(s, s', p.up, p.id, p.id, touched);
      }
    }
  }

  // ----- rotations -----

  function RotL(t: Tree): Tree
    requires t.Node? && t.r.Node?
  {
    Node(Node(t.l, t.id, t.c, t.r.l), t.r.id, t.r.c, t.r.r)
  }

  function RotR(t: Tree): Tree
    requires t.Node? && t.l.Node?
  {
    Node(t.l.l, t.l.id, t.l.c, Node(t.l.r, t.id, t.c, t.r))
  }

  lemma RotLSame(t: Tree)
    requires t.Node? && t.r.Node?
    ensures Ids(RotL(t)) == Ids(t)
    ensures Distinct(t) <==> Distinct(RotL(t))
  {
    assert Distinct(t) ==> Distinct(t.r);
    assert Distinct(RotL(t)) ==> Distinct(RotL(t).l);
  }

  lemma InorderOf(t: Tree)
    requires t.Node?
    ensures Inorder(t) == Inorder(t.l) + [t.id] + Inorder(t.r)
  {
  }

  lemma RotLInorder(t: Tree)
    requires t.Node? && t.r.Node?
    ensures Inorder(RotL(t)) == Inorder(t)
  {
    hide Inorder;
    InorderOf(t);
    InorderOf(t.r);
    InorderOf(RotL(t));
    InorderOf(RotL(t).l);
    var a, b, c := Inorder(t.l), Inorder(t.r.l), Inorder(t.r.r);
    assert (a + [t.id] + b) + [t.r.id] + c == a + [t.id] + (b + [t.r.id] + c);
  }

  lemma RotRInorder(t: Tree)
    requires t.Node? && t.l.Node?
    ensures Inorder(RotR(t)) == Inorder(t)
  {
    RotLInorder(RotR(t));
  }

  /** The nodes that a rotation touches: the two that change places, the subtree that
      changes parent, and the node above. */
  function Turned(p: Path, x: Id, y: Id, b: Tree): set<Id> {
    {x, y} + (if b.Nil? then {} else {b.id}) + (if p.Top? then {} else {p.id})
  }

  /** `s'` is `s` after the links of `t` were rewritten into those of a tree with the same
      nodes, in which `b` hangs below `x` and `x` below `y`. */
  ghost predicate Rotated(s: Store, s': Store, p: Path, x: Id, y: Id, b: Tree, rx: Rec, ry: Rec) {
    && Unchanged(s, s', Turned(p, x, y, b)) && Relinked(s', p, y, s.root)
    && Holds(s', x, rx) && Holds(s', y, ry)
    && (b.Node? ==> Holds(s', b.id, Rec(RootId(b.l), RootId(b.r), x, b.c)))
  }

  /** The nodes that a left rotation touches are all different. */
  lemma RotLFields(s: Store, p: Path, t: Tree)
    requires Focus(s, p, t) && t.Node? && t.r.Node?
    ensures var x, y, b := t.id, t.r.id, t.r.l;
      && Holds(s, x, Rec(RootId(t.l), y, Above(p), t.c))
      && Holds(s, y, Rec(RootId(b), RootId(t.r.r), x, t.r.c))
      && (b.Node? ==> b.id != NIL && Holds(s, b.id, Rec(RootId(b.l), RootId(b.r), y, b.c)))
      && NIL in s.m && x != NIL && y != NIL && x != y && RootId(b) != x && RootId(b) != y
      && (!p.Top? ==> p.id !in {x, y, RootId(b), NIL} && Holds(s, p.id, PathRec(p, x)) && RootId(p.sib) != x)
  {
    FocusFields(s, p, t);
    assert Links(s, t.r, t.id) && Links(s, t.r.l, t.r.id) && Distinct(t.r);
    assert t.r.l.Node? ==> t.r.l.id in Ids(t.r.l);
    assert t.r.id in Ids(t.r) && Ids(t.r.l) <= Ids(t.r) && Ids(t.r) <= Ids(t);
    assert !p.Top? ==> p.id in PathIds(p);
  }

  lemma RotatedLFocus(s: Store, s': Store, p: Path, t: Tree)
    requires Focus(s, p, t) && t.Node? && t.r.Node?
    requires Rotated(s, s', p, t.id, t.r.id, t.r.l, Rec(RootId(t.l), RootId(t.r.l), t.r.id, t.c),
                     Rec(t.id, RootId(t.r.r), Above(p), t.r.c))
    ensures Focus(s', p, RotL(t))
  {
    var touched := Turned(p, t.id, t.r.id, t.r.l);
    FocusApart(s, p, t);
    assert Links(s, t.r, t.id) && Distinct(t.r);
    assert t.id in Ids(t) && t.r.id in Ids(t) && Ids(t.r) <= Ids(t) && Ids(t.r.l) <= Ids(t.r);
    assert !p.Top? ==> p.id in PathIds(p);
    UnchangedLinks(s, s', t.l, t.id, touched);
    UnchangedLinks(s, s', t.r.r, t.r.id, touched);
    Reparented(s, s', t.r.l, t.r.id, t.id, touched);
    RelinkedPath(s, s', p, t.id, t.r.id, touched);
    RotLSame(t);
    assert Links(s', RotL(t).l, t.r.id);
  }

  lemma RotRFields(s: Store, p: Path, t: Tree)
    requires Focus(s, p, t) && t.Node? && t.l.Node?
    ensures var x, y, b := t.id, t.l.id, t.l.r;
      && Holds(s, x, Rec(y, RootId(t.r), Above(p), t.c))
      && Holds(s, y, Rec(RootId(t.l.l), RootId(b), x, t.l.c))
      && (b.Node? ==> b.id != NIL && Holds(s, b.id, Rec(RootId(b.l), RootId(b.r), y, b.c)))
      && NIL in s.m && x != NIL && y != NIL && x != y && RootId(b) != x && RootId(b) != y
      && (!p.Top? ==> p.id !in {x, y, RootId(b), NIL} && Holds(s, p.id, PathRec(p, x)) && RootId(p.sib) != x)
  {
    FocusFields(s, p, t);
    assert Links(s, t.l, t.id) && Links(s, t.l.r, t.l.id) && Distinct(t.l);
    assert t.l.r.Node? ==> t.l.r.id in Ids(t.l.r);
    assert t.l.id in Ids(t.l) && Ids(t.l.r) <= Ids(t.l) && Ids(t.l) <= Ids(t);
    assert !p.Top? ==> p.id in PathIds(p);
  }

  lemma RotatedRFocus(s: Store, s': Store, p: Path, t: Tree)
    requires Focus(s, p, t) && t.Node? && t.l.Node?
    requires Rotated(s, s', p, t.id, t.l.id, t.l.r, Rec(RootId(t.l.r), RootId(t.r), t.l.id, t.c),
                     Rec(RootId(t.l.l), t.id, Above(p), t.l.c))
    ensures Focus(s', p, RotR(t))
  {
    var touched := Turned(p, t.id, t.l.id, t.l.r);
    FocusApart(s, p, t);
    assert Links(s, t.l, t.id) && Distinct(t.l);
    assert t.id in Ids(t) && t.l.id in Ids(t) && Ids(t.l) <= Ids(t) && Ids(t.l.r) <= Ids(t.l);
    assert !p.Top? ==> p.id in PathIds(p);
    UnchangedLinks(s, s', t.r, t.id, touched);
    UnchangedLinks(s, s', t.l.l, t.l.id, touched);
    Reparented(s, s', t.l.r, t.l.id, t.id, touched);
    RelinkedPath(s, s', p, t.id, t.l.id, touched);
    RotLSame(RotR(t));
    assert Links(s', RotR(t).r, t.l.id);
  }

  // ----- colouring -----

  lemma Paint(s: Store, p: Path, t: Tree, c: Color)
    requires Focus(s, p, t) && t.Node?
    ensures Focus(SetColor(s, t.id, c), p, t.(c := c))
  {
    var s' := SetColor(s, t.id, c);
    FocusApart(s, p, t);
    assert t.id in Ids(t);
    UnchangedLinks(s, s', t.l, t.id, {t.id});
    UnchangedLinks(s, s', t.r, t.id, {t.id});
    if !p.Top? {
      assert p.id in PathIds(p);
      RelinkedPath(s, s', p, t.id, t.id, {t.id});
    }
  }

  // ----- red-black invariants -----

  function BlackHeight(t: Tree): nat {
    if t.Nil? then 0 else BlackHeight(t.l) + (if t.c == Black then 1 else 0)
  }

  /** Equal black heights everywhere, and no red node with a red child. */
  ghost predicate RB(t: Tree) {
    t.Node? ==>
      && RB(t.l) && RB(t.r) && BlackHeight(t.l) == BlackHeight(t.r)
      && (t.c == Red ==> ColorOf(t.l) == Black && ColorOf(t.r) == Black)
  }

  function Blacken(t: Tree): Tree { if t.Nil? then Nil else t.(c := Black) }

  function Colored(p: Path, c: Color): Path
    requires !p.Top?
  { p.(c := c) }

  /** The same path with another sibling. */
  function Beside(p: Path, sib: Tree): Path
    requires !p.Top?
  { p.(sib := sib) }

  function PathColor(p: Path): Color { if p.Top? then Black else p.c }

  /** The path is fit for a subtree of black height `h`, whatever the colour of its root. */
  ghost predicate RBPath(p: Path, h: nat) {
    !p.Top? ==>
      && RB(p.sib) && BlackHeight(p.sib) == h
      && (p.c == Red ==> ColorOf(p.sib) == Black && PathColor(p.up) == Black)
      && (p.up.Top? ==> p.c == Black)
      && RBPath(p.up, h + (if p.c == Black then 1 else 0))
  }

  /** A red subtree that is fine in itself, on a path that is fine but for the edge above it. */
  ghost predicate RedAt(p: Path, t: Tree) {
    t.Node? && t.c == Red && RB(t) && RBPath(p, BlackHeight(t))
  }

  lemma RBPlug(p: Path, t: Tree)
    requires RB(t) && RBPath(p, BlackHeight(t))
    requires ColorOf(t) == Red ==> PathColor(p) == Black
    ensures RB(Plug(p, t)) && (!p.Top? ==> ColorOf(Plug(p, t)) == Black)
  {
    if !p.Top? {
      RBPlug(p.up, Parent(p, t));
    }
  }

  /** Insert repair, red uncle: the grandparent turns red and the problem moves up to it. */
  lemma RecolorUp(p: Path, t: Tree)
    requires RedAt(p, t) && PathColor(p) == Red && ColorOf(p.up.sib) == Red
    ensures !p.up.Top? && p.up.c == Black && p.up.sib.Node?
    ensures RedAt(p.up.up, Parent(Colored(Beside(p.up, Blacken(p.up.sib)), Red), Parent(Colored(p, Black), t)))
  {
    assert RBPath(p.up, BlackHeight(t)) && RB(p.up.sib);
    assert RB(Parent(Colored(p, Black), t)) && RB(Blacken(p.up.sib));
  }

  /** Insert repair, black uncle: after the inner rotation, if any, and the outer one, the red
      subtree has a black parent. */
  lemma InnerTurn(p: Path, t: Tree)
    requires RedAt(p, t) && PathColor(p) == Red
    ensures p.RightOf? ==> RedAt(LeftOf(p.up, t.id, Red, t.r), Node(p.sib, p.id, Red, t.l))
    ensures p.LeftOf? ==> RedAt(RightOf(p.up, t.id, Red, t.l), Node(t.r, p.id, Red, p.sib))
  {
    assert RBPath(p.up, BlackHeight(t));
  }

  lemma OuterTurn(p: Path, t: Tree)
    requires RedAt(p, t) && PathColor(p) == Red && ColorOf(p.up.sib) == Black
    ensures !p.up.Top? && p.up.c == Black
    ensures p.LeftOf? && p.up.LeftOf? ==>
      RedAt(LeftOf(p.up.up, p.id, Black, Node(p.sib, p.up.id, Red, p.up.sib)), t)
    ensures p.RightOf? && p.up.RightOf? ==>
      RedAt(RightOf(p.up.up, p.id, Black, Node(p.up.sib, p.up.id, Red, p.sib)), t)
  {
    assert RBPath(p.up, BlackHeight(t)) && RB(p.up.sib);
  }

  /** A red parent is not the root. */
  lemma RedGrand(p: Path, t: Tree)
    requires RedAt(p, t) && PathColor(p) == Red
    ensures !p.up.Top?
  {
  }

  lemma BlackenRB(t: Tree)
    requires RB(t)
    ensures RB(Blacken(t)) && ColorOf(Blacken(t)) == Black
  {
  }

  // ----- repair after a delete -----

  /** A subtree that is one black node short of what its path calls for; blackening a red root
      makes up for it. */
  ghost predicate Short(p: Path, t: Tree) {
    RB(Blacken(t)) && RBPath(p, BlackHeight(t) + 1)
  }

  /** The path to the other child of the node above. */
  function Across(p: Path, t: Tree): Path
    requires !p.Top?
  {
    if p.LeftOf? then RightOf(p.up, p.id, p.c, t) else LeftOf(p.up, p.id, p.c, t)
  }

  lemma ShortSibling(p: Path, t: Tree)
    requires Short(p, t) && !p.Top? && ColorOf(t) == Black
    ensures p.sib.Node? && RB(p.sib)
    ensures p.sib.c == Red ==> p.c == Black && p.sib.l.Node? && p.sib.r.Node?
  {
    assert p.sib.Node? ==> RB(p.sib.l) && RB(p.sib.r);
  }

  /** Red sibling: it comes up black, and the new sibling is black. */
  lemma RedSibling(p: Path, t: Tree)
    requires Short(p, t) && !p.Top? && ColorOf(t) == Black && ColorOf(p.sib) == Red
    ensures p.LeftOf? ==> Short(LeftOf(LeftOf(p.up, p.sib.id, Black, p.sib.r), p.id, Red, p.sib.l), t)
    ensures p.RightOf? ==> Short(RightOf(RightOf(p.up, p.sib.id, Black, p.sib.l), p.id, Red, p.sib.r), t)
    ensures p.sib.l.Node? && p.sib.l.c == Black && p.sib.r.Node? && p.sib.r.c == Black
  {
    assert RB(p.sib.l) && RB(p.sib.r);
  }

  /** Black sibling with black children: it turns red, and the parent is short. */
  lemma BlackNephews(p: Path, t: Tree)
    requires Short(p, t) && !p.Top? && ColorOf(t) == Black
    requires p.sib.Node? && p.sib.c == Black && ColorOf(p.sib.l) == Black && ColorOf(p.sib.r) == Black
    ensures Short(p.up, Parent(Beside(p, p.sib.(c := Red)), t))
  {
  }

  /** Black sibling whose near child only is red: that child comes up in its place. */
  lemma NearNephew(p: Path, t: Tree)
    requires Short(p, t) && !p.Top? && ColorOf(t) == Black && p.sib.Node? && p.sib.c == Black
    ensures p.LeftOf? && ColorOf(p.sib.l) == Red && ColorOf(p.sib.r) == Black ==>
      Short(Beside(p, RotR(p.sib.(c := Red, l := Blacken(p.sib.l)))), t)
    ensures p.RightOf? && ColorOf(p.sib.r) == Red && ColorOf(p.sib.l) == Black ==>
      Short(Beside(p, RotL(p.sib.(c := Red, r := Blacken(p.sib.r)))), t)
  {
    assert RB(p.sib) && RB(p.sib.l) && RB(p.sib.r);
  }

  /** Black sibling whose far child is red: one rotation makes up for the missing black. */
  lemma FarNephew(p: Path, t: Tree)
    requires Short(p, t) && !p.Top? && ColorOf(t) == Black && p.sib.Node? && p.sib.c == Black
    requires ColorOf(if p.LeftOf? then p.sib.r else p.sib.l) == Red
    ensures var t' :=
        if p.LeftOf? then Node(Node(t, p.id, Black, p.sib.l), p.sib.id, p.c, Blacken(p.sib.r))
        else Node(Blacken(p.sib.l), p.sib.id, p.c, Node(p.sib.r, p.id, Black, t));
      RB(Plug(p.up, t')) && Short(Top, Plug(p.up, t'))
  {
    var t' :=
      if p.LeftOf? then Node(Node(t, p.id, Black, p.sib.l), p.sib.id, p.c, Blacken(p.sib.r))
      else Node(Blacken(p.sib.l), p.sib.id, p.c, Node(p.sib.r, p.id, Black, t));
    assert RB(p.sib) && RB(p.sib.l) && RB(p.sib.r) && RB(t);
    assert RB(t'.l) && RB(t'.r) && BlackHeight(t'.l) == BlackHeight(t'.r) == BlackHeight(t) + 1;
    assert RB(t') && BlackHeight(t') == BlackHeight(t) + 1 + (if p.c == Black then 1 else 0);
    RBPlug(p.up, t');
    BlackenRB(Plug(p.up, t'));
  }

  lemma PlugNode(p: Path, t: Tree)
    requires t.Node?
    ensures Plug(p, t).Node?
  {
    if !p.Top? {
      PlugNode(p.up, Parent(p, t));
    }
  }

  /** At the end of the repair, blackening the node restores the invariants everywhere. */
  lemma PaidBack(p: Path, t: Tree)
    requires Short(p, t) && (p.Top? || ColorOf(t) == Red)
    ensures RB(Plug(p, Blacken(t))) && ColorOf(Plug(p, Blacken(t))) == Black
  {
    RBPlug(p, Blacken(t));
  }

  lemma RBUnplug(p: Path, t: Tree)
    requires RB(Plug(p, t)) && ColorOf(Plug(p, t)) == Black
    ensures RB(t) && RBPath(p, BlackHeight(t)) && (ColorOf(t) == Red ==> PathColor(p) == Black && !p.Top?)
  {
    if !p.Top? {
      RBUnplug(p.up, Parent(p, t));
    }
  }

  lemma HungRed(p: Path, z: Id)
    requires RB(Plug(p, Nil)) && ColorOf(Plug(p, Nil)) == Black
    ensures RedAt(p, Node(Nil, z, Red, Nil))
  {
    RBUnplug(p, Nil);
  }
}
