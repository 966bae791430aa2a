/** What taking a node out of the tree does: a node with at most one child is spliced out, and a
    node with two children is replaced by its successor, which is spliced out of its own place. */
module DeleteModel {
  import opened Base
  import opened RbModel
  import opened ChainModel
  import opened IntervalModel

  // ----- paths below a node -----

  /** The path `ip`, continued upwards by `base`. */
  function Graft(ip: Path, base: Path): Path {
    match ip
    case Top => base
    case LeftOf(up, id, c, sib) => LeftOf(Graft(up, base), id, c, sib)
    case RightOf(up, id, c, sib) => RightOf(Graft(up, base), id, c, sib)
  }

  lemma AtGraft(s: Store, g: Aug, ip: Path, base: Path, t: Tree, n: Id, exact: bool, q: seq<Id>)
    ensures At(s, g, Graft(ip, base), t, n, exact, q) <==> At(s, g, base, Plug(ip, t), n, exact, q)
  {
    hide At;
    if !ip.Top? {
      AtUp(s, g, Graft(ip, base), t, n, exact, q);
      AtGraft(s, g, ip.up, base, Parent(ip, t), n, exact, q);
    }
  }

  /** Black heights and colours do not depend on which node sits at the top of `ip`. */
  lemma {:induction false} RBGraft(ip: Path, p: Path, z: Id, y: Id, c: Color, l: Tree, h: nat)
    requires RBPath(Graft(ip, RightOf(p, z, c, l)), h)
    ensures RBPath(Graft(ip, RightOf(p, y, c, l)), h)
    ensures PathColor(Graft(ip, RightOf(p, y, c, l))) == PathColor(Graft(ip, RightOf(p, z, c, l)))
  {
    if !ip.Top? {
      RBGraft(ip.up, p, z, y, c, l, h + (if ip.c == Black then 1 else 0));
    }
  }

  // ----- splicing a node out -----

  /** `t` has at most one child, which is `r`. */
  ghost predicate Lone(t: Tree, r: Tree) {
    t.Node? && ((t.l.Nil? && r == t.r) || (t.r.Nil? && r == t.l))
  }

  ghost predicate Spliced(s: Store, s': Store, p: Path, r: Tree) {
    && Unchanged(s, s', (if p.Top? then {} else {p.id}) + (if r.Nil? then {NIL} else {r.id}))
    && Relinked(s', p, RootId(r), s.root)
    && (r.Node? ==> Holds(s', r.id, Rec(RootId(r.l), RootId(r.r), Above(p), r.c)))
    && NIL in s'.m && s'.m[NIL].color == Black
  }

  lemma SplicedFocus(s: Store, s': Store, p: Path, t: Tree, r: Tree)
    requires Focus(s, p, t) && Lone(t, r) && Spliced(s, s', p, r)
    ensures Focus(s', p, r)
  {
    var touched := (if p.Top? then {} else {p.id}) + (if r.Nil? then {NIL} else {r.id});
    FocusApart(s, p, t);
    assert !p.Top? ==> p.id in PathIds(p);
    assert r.Node? ==> r.id in Ids(r);
    assert Ids(r) <= Ids(t);
    Reparented(s, s', r, t.id, Above(p), touched);
    RelinkedPath(s, s', p, t.id, RootId(r), touched);
  }

  lemma AugLoosen(g: Aug, t: Tree, lo: nat, hi: nat, lo': nat, hi': nat, n: Id, exact: bool)
    requires AugTree(g, t, lo, hi, n, exact) && hi <= hi'
    requires forall i :: i in Ids(t) && i in g.iv ==> lo' <= g.iv[i].start
    ensures AugTree(g, t, lo', hi', n, false)
  {
    if t.Node? {
      assert t.id in Ids(t);
      AugLoosen(g, t.l, lo, g.iv[t.id].start, lo', g.iv[t.id].start, n, exact);
      forall i | i in Ids(t.r) && i in g.iv
        ensures g.iv[t.id].end <= g.iv[i].start
      {
        StartsAbove(g, t.r, g.iv[t.id].end, hi, n, exact);
      }
      AugLoosen(g, t.r, g.iv[t.id].end, hi, g.iv[t.id].end, hi', n, exact);
    }
  }

  lemma StartsAbove(g: Aug, t: Tree, lo: nat, hi: nat, n: Id, exact: bool)
    requires AugTree(g, t, lo, hi, n, exact)
    ensures forall i :: i in Ids(t) ==> i in g.iv && lo <= g.iv[i].start < g.iv[i].end <= hi
  {
  }

  lemma {:induction false} AugSidesInexact(g: Aug, p: Path, n: Id, exact: bool)
    requires AugSides(g, p, n, exact)
    ensures AugSides(g, p, n, false)
  {
    if !p.Top? {
      AugSidesInexact(g, p.up, n, exact);
      var lo := if p.LeftOf? then g.iv[p.id].end else Lo(g, p.up);
      var hi := if p.LeftOf? then Hi(g, p.up) else g.iv[p.id].start;
      StartsAbove(g, p.sib, lo, hi, n, exact);
      AugLoosen(g, p.sib, lo, hi, lo, hi, n, exact);
    }
  }

  /** Once something is deleted, recorded data are only bounds. */
  lemma AugInexact(g: Aug, t: Tree, n: Id, exact: bool)
    requires AugFocus(g, Top, t, n, exact)
    ensures AugFocus(g, Top, t, n, false)
  {
    StartsAbove(g, t, 0, U64_MAX, n, exact);
    AugLoosen(g, t, 0, U64_MAX, 0, U64_MAX, n, exact);
  }

  /** The nodes above stay within bounds when what is recorded below them shrinks. */
  lemma {:induction false} SpineLower(g: Aug, g': Aug, p: Path, at: Id, at': Id, k: Id)
    requires AugSides(g, p, NIL, false) && AugSpine(g, p, at, false, NIL, false)
    requires OnlyAt(g, g', k) && k !in PathIds(p) && NIL !in PathIds(p)
    requires MaxOf(g', at') <= MaxOf(g, at) && MinOf(g', at') >= MinOf(g, at)
    ensures AugSides(g', p, NIL, false) && AugSpine(g', p, at', false, NIL, false)
  {
    hide Lo, Hi, AugTree;
    AugSidesSame(g, g', p, NIL, false, k);
    if !p.Top? {
      SpineLower(g, g', p.up, p.id, p.id, k);
      SameReadings(g, g', p, k);
    }
  }

  lemma SameReadings(g: Aug, g': Aug, p: Path, k: Id)
    requires AugSides(g, p, NIL, false) && OnlyAt(g, g', k) && k !in PathIds(p) && !p.Top?
    ensures HasAug(g, p.id) && HasAug(g', p.id) && g'.iv[p.id] == g.iv[p.id]
    ensures g'.mx[p.id] == g.mx[p.id] && g'.mn[p.id] == g.mn[p.id]
    ensures MaxOf(g', RootId(p.sib)) == MaxOf(g, RootId(p.sib)) && MinOf(g', RootId(p.sib)) == MinOf(g, RootId(p.sib))
    ensures MaxOf(g', p.id) == MaxOf(g, p.id) && MinOf(g', p.id) == MinOf(g, p.id)
    ensures Hi(g', p.up) == Hi(g, p.up)
  {
    assert p.id in PathIds(p) && PathIds(p.up) <= PathIds(p);
    assert p.sib.Node? ==> p.sib.id in Ids(p.sib) && HasAug(g, p.sib.id);
    AugSidesSame(g, g', p.up, NIL, false, k);
  }

  /** The callback hands the data of the node that goes to the one that takes its place. */
  function Inherited(g: Aug, u: Id, v: Tree): Aug
    requires HasAug(g, u)
  {
    if v.Nil? then g else Handed(g, u, v.id)
  }

  lemma AugSpliced(g: Aug, p: Path, t: Tree, r: Tree, inherit: bool)
    requires AugFocus(g, p, t, NIL, false) && Lone(t, r) && Apart(p, t)
    ensures AugFocus(if inherit then Inherited(g, t.id, r) else g, p, r, NIL, false)
  {
    hide AugTree, AugSides, AugSpine, Lo, Hi;
    RootHas(g, t, Lo(g, p), Hi(g, p));
    var g' := if inherit then Inherited(g, t.id, r) else g;
    SplicedTree(g, p, t, r, inherit);
    if r.Node? {
      assert r.id in Ids(t);
      SpineLower(g, g', p, t.id, r.id, r.id);
      AugSidesSame(g, g', p, NIL, false, r.id);
    } else {
      SpineLower(g, g', p, t.id, NIL, NIL);
    }
  }

  lemma RootHas(g: Aug, t: Tree, lo: nat, hi: nat)
    requires AugTree(g, t, lo, hi, NIL, false) && t.Node? && NIL !in Ids(t) && (t.l.Nil? || t.r.Nil?)
    ensures HasAug(g, t.id) && MaxOf(g, NIL) <= MaxOf(g, t.id) && MinOf(g, NIL) >= MinOf(g, t.id)
  {
  }

  lemma SplicedTree(g: Aug, p: Path, t: Tree, r: Tree, inherit: bool)
    requires AugTree(g, t, Lo(g, p), Hi(g, p), NIL, false) && Lone(t, r) && Distinct(t) && NIL !in Ids(t)
    ensures AugTree(if inherit then Inherited(g, t.id, r) else g, r, Lo(g, p), Hi(g, p), NIL, false)
    ensures r.Node? ==> HasAug(g, r.id) && g.mx[r.id] <= g.mx[t.id] && g.mn[r.id] >= g.mn[t.id]
  {
    if r.Node? {
      var lo := if t.l.Nil? then g.iv[t.id].end else Lo(g, p);
      var hi := if t.l.Nil? then Hi(g, p) else g.iv[t.id].start;
      assert AugTree(g, r, lo, hi, NIL, false);
      assert r.id in Ids(r) && NIL !in Ids(r) && Distinct(r);
      assert AugTree(g, r, Lo(g, p), Hi(g, p), NIL, false) by {
        StartsAbove(g, r, lo, hi, NIL, false);
        AugLoosen(g, r, lo, hi, Lo(g, p), Hi(g, p), NIL, false);
      }
      InheritedTree(g, r, Lo(g, p), Hi(g, p), t.id);
    }
  }

  /** A subtree may record more for its root, as long as it stays within bounds. */
  lemma InheritedTree(g: Aug, r: Tree, lo: nat, hi: nat, u: Id)
    requires AugTree(g, r, lo, hi, NIL, false) && r.Node? && Distinct(r) && HasAug(g, u) && NIL !in Ids(r)
    requires g.mx[r.id] <= g.mx[u] <= hi && g.mn[u] <= g.mn[r.id]
    ensures AugTree(Handed(g, u, r.id), r, lo, hi, NIL, false)
  {
    var g' := Handed(g, u, r.id);
    AugTreeSame(g, g', r.l, lo, g.iv[r.id].start, NIL, false, r.id);
    AugTreeSame(g, g', r.r, g.iv[r.id].end, hi, NIL, false, r.id);
  }

  lemma AtSpliced(s: Store, s': Store, g: Aug, p: Path, t: Tree, r: Tree, inherit: bool, q: seq<Id>)
    requires At(s, g, p, t, NIL, false, q) && Lone(t, r) && Spliced(s, s', p, r)
    ensures HasAug(g, t.id)
    ensures At(s', if inherit then Inherited(g, t.id, r) else g, p, r, NIL, false, Order(p, r))
  {
    FocusApart(s, p, t);
    SplicedFocus(s, s', p, t, r);
    hide Focus, Order;
    AugSpliced(g, p, t, r, inherit);
  }

  // ----- putting the successor in the place of a node -----

  function Substituted(t: Tree, y: Id): Tree
    requires t.Node?
  { Node(t.l, y, t.c, t.r) }

  function SubstTouched(p: Path, t: Tree, y: Id): set<Id>
    requires t.Node?
  {
    {t.id, y, NIL} + (if p.Top? then {} else {p.id})
    + (if t.l.Nil? then {} else {t.l.id}) + (if t.r.Nil? then {} else {t.r.id})
  }

  ghost predicate Taken(s: Store, s': Store, p: Path, t: Tree, y: Id)
    requires t.Node?
  {
    && Unchanged(s, s', SubstTouched(p, t, y)) && Relinked(s', p, y, s.root)
    && Holds(s', y, Rec(RootId(t.l), RootId(t.r), Above(p), t.c))
    && (t.l.Node? ==> Holds(s', t.l.id, Rec(RootId(t.l.l), RootId(t.l.r), y, t.l.c)))
    && (t.r.Node? ==> Holds(s', t.r.id, Rec(RootId(t.r.l), RootId(t.r.r), y, t.r.c)))
    && NIL in s'.m && s'.m[NIL].color == Black
  }

  lemma TakenFocus(s: Store, s': Store, p: Path, t: Tree, y: Id)
    requires Focus(s, p, t) && t.Node? && y != NIL && y !in Ids(t) && y !in PathIds(p)
    requires Taken(s, s', p, t, y)
    ensures Focus(s', p, Substituted(t, y))
  {
    var touched := SubstTouched(p, t, y);
    FocusApart(s, p, t);
    assert !p.Top? ==> p.id in PathIds(p);
    assert t.id in Ids(t) && Ids(t.l) <= Ids(t) && Ids(t.r) <= Ids(t);
    assert t.l.Node? ==> t.l.id in Ids(t.l);
    assert t.r.Node? ==> t.r.id in Ids(t.r);
    Reparented(s, s', t.l, t.id, y, touched);
    Reparented(s, s', t.r, t.id, y, touched);
    RelinkedPath(s, s', p, t.id, y, touched);
  }

  lemma TakenAug(g: Aug, p: Path, t: Tree, y: Id)
    requires AugFocus(g, p, t, NIL, false) && Apart(p, t) && t.Node?
    requires y != NIL && y !in Ids(t) && y !in PathIds(p) && HasAug(g, y)
    requires g.iv[t.id].end <= g.iv[y].start < g.iv[y].end <= g.mx[t.id]
    requires forall i :: i in Ids(t.r) && i in g.iv ==> g.iv[y].end <= g.iv[i].start
    ensures AugFocus(Handed(g, t.id, y), p, Substituted(t, y), NIL, false)
  {
    var g' := Handed(g, t.id, y);
    assert AugTree(g', Substituted(t, y), Lo(g, p), Hi(g, p), NIL, false) by {
      TakenTree(g, t, Lo(g, p), Hi(g, p), y);
    }
    assert Lo(g', p) == Lo(g, p) && Hi(g', p) == Hi(g, p) by {
      AugSidesSame(g, g', p, NIL, false, y);
    }
    SpineLower(g, g', p, t.id, y, y);
  }

  lemma TakenTree(g: Aug, t: Tree, lo: nat, hi: nat, y: Id)
    requires AugTree(g, t, lo, hi, NIL, false) && t.Node? && NIL !in Ids(t)
    requires y != NIL && y !in Ids(t) && HasAug(g, y)
    requires g.iv[t.id].end <= g.iv[y].start < g.iv[y].end <= g.mx[t.id]
    requires forall i :: i in Ids(t.r) && i in g.iv ==> g.iv[y].end <= g.iv[i].start
    ensures AugTree(Handed(g, t.id, y), Substituted(t, y), lo, hi, NIL, false)
  {
    var g' := Handed(g, t.id, y);
    assert HasAug(g, t.id);
    assert AugTree(g', t.l, lo, g.iv[y].start, NIL, false) by {
      StartsAbove(g, t.l, lo, g.iv[t.id].start, NIL, false);
      AugLoosen(g, t.l, lo, g.iv[t.id].start, lo, g.iv[y].start, NIL, false);
      AugTreeSame(g, g', t.l, lo, g.iv[y].start, NIL, false, y);
    }
    assert AugTree(g', t.r, g.iv[y].end, hi, NIL, false) by {
      AugLoosen(g, t.r, g.iv[t.id].end, hi, g.iv[y].end, hi, NIL, false);
      AugTreeSame(g, g', t.r, g.iv[y].end, hi, NIL, false, y);
    }
    TakenNode(g, t, lo, hi, y);
  }

  /** The node itself, once its two subtrees are right. */
  lemma TakenNode(g: Aug, t: Tree, lo: nat, hi: nat, y: Id)
    requires AugTree(g, t, lo, hi, NIL, false) && t.Node? && NIL !in Ids(t)
    requires y != NIL && y !in Ids(t) && HasAug(g, y)
    requires g.iv[t.id].end <= g.iv[y].start < g.iv[y].end <= g.mx[t.id]
    requires AugTree(Handed(g, t.id, y), t.l, lo, g.iv[y].start, NIL, false)
    requires AugTree(Handed(g, t.id, y), t.r, g.iv[y].end, hi, NIL, false)
    ensures AugTree(Handed(g, t.id, y), Substituted(t, y), lo, hi, NIL, false)
  {
    assert t.l.Node? ==> t.l.id in Ids(t);
    assert t.r.Node? ==> t.r.id in Ids(t);
  }

  // ----- the writes of replace_node -----

  function ReplaceLinks(s: Store, u: Id, v: Id): Store
    requires u in s.m && v in s.m && s.m[u].parent in s.m
  {
    var p := s.m[u].parent;
    var s' := if p == NIL then s.(root := v)
              else if u == s.m[p].left then SetLeft(s, p, v)
              else SetRight(s, p, v);
    SetParent(s', v, s'.m[u].parent)
  }

  lemma LoneReplaced(s: Store, p: Path, t: Tree, r: Tree)
    requires Focus(s, p, t) && Lone(t, r)
    ensures t.id in s.m && RootId(r) in s.m && s.m[t.id].parent in s.m
    ensures var s' := ReplaceLinks(s, t.id, RootId(r));
      && Spliced(s, s', p, r) && s'.m[RootId(r)].parent == Above(p)
      && s'.m[t.id] == s.m[t.id]
  {
    FocusFields(s, p, t);
    FocusApart(s, p, t);
    assert Links(s, r, t.id);
    assert t.id in Ids(t) && Ids(r) <= Ids(t);
    assert r.Node? ==> r.id in Ids(r);
    assert !p.Top? ==> p.id in PathIds(p);
  }

  /** The nodes around one that is being replaced are all different. */
  lemma TakeNames(s: Store, p: Path, t: Tree, y: Id)
    requires Focus(s, p, t) && t.Node? && y != NIL && y !in Ids(t) && y !in PathIds(p)
    ensures Holds(s, t.id, Rec(RootId(t.l), RootId(t.r), Above(p), t.c)) && NIL in s.m && s.m[NIL].color == Black
    ensures t.id != NIL && t.id != y && Above(p) != y && Above(p) != t.id && Above(p) in s.m
    ensures !p.Top? ==> p.id != NIL && Holds(s, p.id, PathRec(p, t.id)) && RootId(p.sib) != t.id
    ensures t.l.Node? ==>
      && t.l.id !in {NIL, y, t.id, Above(p), RootId(t.r)}
      && Holds(s, t.l.id, Rec(RootId(t.l.l), RootId(t.l.r), t.id, t.l.c))
    ensures t.r.Node? ==>
      && t.r.id !in {NIL, y, t.id, Above(p)}
      && Holds(s, t.r.id, Rec(RootId(t.r.l), RootId(t.r.r), t.id, t.r.c))
  {
    FocusFields(s, p, t);
    assert Links(s, t.l, t.id) && Links(s, t.r, t.id);
    assert t.id in Ids(t) && Ids(t.l) <= Ids(t) && Ids(t.r) <= Ids(t);
    assert t.l.Node? ==> t.l.id in Ids(t.l);
    assert t.r.Node? ==> t.r.id in Ids(t.r);
    assert !p.Top? ==> p.id in PathIds(p);
  }

  lemma {:induction false} RootPlug(ip: Path, a: Tree, b: Tree)
    requires !ip.Top?
    ensures Plug(ip, a).Node? && RootId(Plug(ip, a)) == RootId(Plug(ip, b))
  {
    if !ip.up.Top? {
      RootPlug(ip.up, Parent(ip, a), Parent(ip, b));
    }
  }

  /** The writes that put `y` where `z` is, except for its right child. */
  function TakeOver(s: Store, z: Id, y: Id): Store
    requires z in s.m && y in s.m && s.m[z].parent in s.m && s.m[z].left in s.m && z != y
  {
    var s1 := ReplaceLinks(s, z, y);
    var s2 := SetLeft(s1, y, s1.m[z].left);
    var s3 := SetParent(s2, s2.m[y].left, y);
    SetColor(s3, y, s3.m[z].color)
  }

  lemma TakeOverIs(s: Store, p: Path, z: Id, l: Id, r: Id, c: Color, y: Id)
    requires Holds(s, z, Rec(l, r, Above(p), c)) && y in s.m && l in s.m && Above(p) in s.m
    requires z !in {NIL, y, l, Above(p)} && l !in {NIL, y, Above(p)} && y !in {NIL, Above(p)}
    requires !p.Top? ==> p.id != NIL && Holds(s, p.id, PathRec(p, z)) && RootId(p.sib) != z
    ensures var s' := TakeOver(s, z, y);
      && Unchanged(s, s', {y, l} + (if p.Top? then {} else {p.id})) && Relinked(s', p, y, s.root)
      && Holds(s', y, Rec(l, s.m[y].right, Above(p), c)) && Holds(s', l, s.m[l].(parent := y))
  {
  }

  /** The successor of `t.id` when that is its right child, before and after it is spliced out. */
  lemma NearNames(s: Store, p: Path, t: Tree)
    requires Focus(s, p, t) && t.Node? && t.l.Node? && t.r.Node? && t.r.l.Nil?
    ensures var z, y, x := t.id, t.r.id, RootId(t.r.r);
      && y in s.m && x in s.m && z in s.m && s.m[y].parent == z && y != NIL
      && Holds(s, z, Rec(t.l.id, y, Above(p), t.c)) && s.m[y].right == x && x !in {z, y, t.l.id, Above(p)} - {NIL}
      && (t.r.r.Node? ==> Holds(s, x, Rec(RootId(t.r.r.l), RootId(t.r.r.r), y, t.r.r.c)))
      && NIL in s.m && s.m[NIL].color == Black
      && var s1 := ReplaceLinks(s, y, x);
        && Unchanged(s1, s, {z, x}) && s1.root == s.root
        && Focus(s1, p, Node(t.l, z, t.c, t.r.r))
        && y !in Ids(Node(t.l, z, t.c, t.r.r)) && y !in PathIds(p)
  {
    var p' := RightOf(p, t.id, t.c, t.l);
    FocusUp(s, p', t.r);
    LoneReplaced(s, p', t.r, t.r.r);
    SplicedFocus(s, ReplaceLinks(s, t.r.id, RootId(t.r.r)), p', t.r, t.r.r);
    FocusUp(ReplaceLinks(s, t.r.id, RootId(t.r.r)), p', t.r.r);
    FocusFields(s, p', t.r);
    FocusFields(s, p, t);
    assert t.l.id in Ids(t.l);
    assert t.r.r.Node? ==> t.r.r.id in Ids(t.r.r);
    assert t.r.id in Ids(t.r) && Ids(t.r.r) <= Ids(t.r) && Ids(t.r) <= Ids(t);
    assert !p.Top? ==> p.id in PathIds(p);
    assert Distinct(t.r) && Links(s, t.r.r, t.r.id);
  }

  lemma NearTaken(s: Store, p: Path, t: Tree)
    requires Focus(s, p, t) && t.Node? && t.l.Node? && t.r.Node? && t.r.l.Nil?
    ensures var z, y, x := t.id, t.r.id, RootId(t.r.r);
      && y in s.m && x in s.m && z in s.m && s.m[y].parent == z && z != y
      && s.m[z].parent in s.m && s.m[z].left in s.m
      && var s' := TakeOver(SetParent(s, x, y), z, y);
        Taken(ReplaceLinks(s, y, x), s', p, Node(t.l, z, t.c, t.r.r), y) && s'.m[x].parent == y
  {
    hide Focus, ReplaceLinks, TakeOver, Ids, PathIds;
    NearNames(s, p, t);
    var z, y, x := t.id, t.r.id, RootId(t.r.r);
    var s1 := ReplaceLinks(s, y, x);
    TakeNames(s1, p, Node(t.l, z, t.c, t.r.r), y);
    TakeOverIs(SetParent(s, x, y), p, z, t.l.id, y, t.c, y);
  }

  // ----- the successor -----

  lemma {:induction false} IdsPlug(ip: Path, t: Tree)
    ensures Ids(Plug(ip, t)) == PathIds(ip) + Ids(t)
  {
    if !ip.Top? {
      IdsPlug(ip.up, Parent(ip, t));
    }
  }

  /** The recorded max of a subtree bounds every interval in it. */
  lemma {:induction false} MaxBound(g: Aug, t: Tree, lo: nat, hi: nat, exact: bool)
    requires AugTree(g, t, lo, hi, NIL, exact) && t.Node? && NIL !in Ids(t)
    ensures forall i :: i in Ids(t) ==> i in g.iv && g.iv[i].end <= g.mx[t.id] && g.mn[t.id] <= g.iv[i].start
  {
    if t.l.Node? {
      MaxBound(g, t.l, lo, g.iv[t.id].start, exact);
    }
    if t.r.Node? {
      MaxBound(g, t.r, g.iv[t.id].end, hi, exact);
    }
  }

  /** Without its least node, a subtree lists the rest in order. */
  lemma LeastFirst(ip: Path, u: Tree)
    requires u.Node? && u.l.Nil? && Before(ip) == []
    ensures Inorder(Plug(ip, u)) == [u.id] + Inorder(Plug(ip, u.r))
  {
    hide Inorder, After, Before, Plug;
    OrderPlug(ip, u);
    OrderPlug(ip, u.r);
    LeastOrder(u);
    Rearranged(u.id, Inorder(u.r), After(ip));
  }

  lemma LeastOrder(u: Tree)
    requires u.Node? && u.l.Nil?
    ensures Inorder(u) == [u.id] + Inorder(u.r)
  {
  }

  lemma Rearranged(x: Id, a: seq<Id>, b: seq<Id>)
    ensures [] + ([x] + a) + b == [x] + ([] + a + b)
  {
  }

  /** `u` is the least part of the right subtree of `t`; `Shrunk` is `t` without its node. */
  ghost predicate Successor(t: Tree, ip: Path, u: Tree) {
    t.Node? && t.r == Plug(ip, u) && u.Node? && u.l.Nil? && Before(ip) == []
  }

  function Shrunk(t: Tree, ip: Path, u: Tree): Tree
    requires t.Node? && u.Node?
  { Node(t.l, t.id, t.c, Plug(ip, u.r)) }

  lemma SuccessorApart(p: Path, t: Tree, ip: Path, u: Tree)
    requires Apart(p, t) && Successor(t, ip, u)
    ensures u.id != NIL && u.id != t.id && u.id in Ids(t.r) && u.id !in Ids(Shrunk(t, ip, u)) && u.id !in PathIds(p)
    ensures t.l.Node? ==> t.l.id != u.id
  {
    IdsPlug(ip, u);
    IdsPlug(ip, u.r);
    assert u.id in Ids(t.r) && Ids(t.r) <= Ids(t);
    assert t.l.Node? ==> t.l.id in Ids(t.l);
    LeastOnce(ip, u);
  }

  lemma {:induction false} LeastOnce(ip: Path, u: Tree)
    requires Distinct(Plug(ip, u)) && u.Node?
    ensures u.id !in Ids(u.r) && u.id !in PathIds(ip) && Ids(u) !! PathIds(ip) && Distinct(u)
  {
    if !ip.Top? {
      LeastOnce(ip.up, Parent(ip, u));
    }
  }

  lemma SuccessorData(g: Aug, t: Tree, lo: nat, hi: nat, ip: Path, u: Tree)
    requires AugTree(g, t, lo, hi, NIL, false) && NIL !in Ids(t) && Successor(t, ip, u)
    ensures HasAug(g, t.id) && HasAug(g, u.id)
    ensures g.iv[t.id].end <= g.iv[u.id].start < g.iv[u.id].end <= g.mx[t.id]
    ensures forall i :: i in Ids(Plug(ip, u.r)) && i in g.iv ==> g.iv[u.id].end <= g.iv[i].start
  {
    LeastFirst(ip, u);
    IdsInorder(Plug(ip, u.r));
    IdsInorder(t.r);
    assert u.id in Inorder(t.r);
    TreeBetween(g, t.r, g.iv[t.id].end, hi, NIL, false);
    MaxBound(g, t, lo, hi, false);
    AllHave(g, t, lo, hi, NIL, false);
    StartsAbove(g, t.r, g.iv[t.id].end, hi, NIL, false);
    hide AugTree, Plug, Inorder;
    AfterFirst(g.iv, u.id, Inorder(Plug(ip, u.r)), g.iv[t.id].end, hi);
  }

  lemma AfterFirst(iv: map<Id, Interval>, y: Id, r: seq<Id>, lo: nat, hi: nat)
    requires Between(iv, [y] + r, lo, hi)
    ensures y in iv && forall i :: i in r ==> i in iv && iv[y].end <= iv[i].start
  {
    var q := [y] + r;
    assert q[0] == y;
    forall i | i in r
      ensures i in iv && iv[y].end <= iv[i].start
    {
      var k :| 0 <= k < |r| && r[k] == i;
      assert q[k + 1] == i;
    }
  }

  lemma AllHave(g: Aug, t: Tree, lo: nat, hi: nat, n: Id, exact: bool)
    requires AugTree(g, t, lo, hi, n, exact)
    ensures forall i :: i in Ids(t) ==> HasAug(g, i)
  {
  }

  /** The successor takes the place of the node above it. */
  lemma AtTaken(s: Store, s': Store, g: Aug, p: Path, t: Tree, y: Id, q: seq<Id>)
    requires At(s, g, p, t, NIL, false, q) && t.Node? && Taken(s, s', p, t, y)
    requires y != NIL && y !in Ids(t) && y !in PathIds(p) && HasAug(g, y) && HasAug(g, t.id)
    requires g.iv[t.id].end <= g.iv[y].start < g.iv[y].end <= g.mx[t.id]
    requires forall i :: i in Ids(t.r) && i in g.iv ==> g.iv[y].end <= g.iv[i].start
    ensures At(s', Handed(g, t.id, y), p, Substituted(t, y), NIL, false, Order(p, Substituted(t, y)))
  {
    FocusApart(s, p, t);
    TakenFocus(s, s', p, t, y);
    hide Focus, Order;
    TakenAug(g, p, t, y);
  }

  /** From the place of the successor down to where it was. */
  lemma AtOldPlace(s: Store, g: Aug, p: Path, t: Tree, ip: Path, u: Tree, q: seq<Id>)
    requires t.Node? && u.Node?
    requires At(s, g, p, Substituted(Shrunk(t, ip, u), u.id), NIL, false, q)
    ensures At(s, g, Graft(ip, RightOf(p, u.id, t.c, t.l)), u.r, NIL, false, q)
  {
    hide At;
    AtUp(s, g, RightOf(p, u.id, t.c, t.l), Plug(ip, u.r), NIL, false, q);
    AtGraft(s, g, ip, RightOf(p, u.id, t.c, t.l), u.r, NIL, false, q);
  }

  /** The order without the node that was at the focus. */
  function Without(p: Path, t: Tree): seq<Id>
    requires t.Node?
  { Before(p) + Inorder(t.l) + (Inorder(t.r) + After(p)) }

  lemma WithoutLone(p: Path, t: Tree, r: Tree)
    requires Lone(t, r)
    ensures Order(p, r) == Without(p, t)
  {
  }

  lemma WithoutTaken(p: Path, t: Tree, ip: Path, u: Tree)
    requires Successor(t, ip, u)
    ensures Order(p, Substituted(Shrunk(t, ip, u), u.id)) == Without(p, t)
  {
    LeastFirst(ip, u);
    var a, b, l, r := Before(p), After(p), Inorder(t.l), Inorder(Plug(ip, u.r));
    assert a + (l + [u.id] + r) + b == a + l + (([u.id] + r) + b);
  }

  // ----- colours -----

  /** Splicing out a black node leaves its place one black node short; a red one leaves nothing. */
  lemma LoneColors(p: Path, t: Tree, r: Tree)
    requires Lone(t, r) && RB(t) && RBPath(p, BlackHeight(t))
    requires ColorOf(t) == Red ==> PathColor(p) == Black && !p.Top?
    ensures t.c == Black ==> Short(p, r)
    ensures t.c == Red ==> RB(Plug(p, r)) && ColorOf(Plug(p, r)) == Black
  {
    if t.c == Red {
      assert r.Nil?;
      RBPlug(p, r);
    }
  }

  /** Everything about the successor that the removal of `t.id` needs. */
  lemma SuccessorFacts(s: Store, g: Aug, p: Path, t: Tree, ip: Path, u: Tree, q: seq<Id>)
    requires At(s, g, p, t, NIL, false, q) && Successor(t, ip, u)
    ensures u.id != NIL && u.id != t.id && u.id !in Ids(Shrunk(t, ip, u)) && u.id !in PathIds(p)
    ensures u.r.Node? ==> u.r.id != t.id
    ensures HasAug(g, t.id) && HasAug(g, u.id)
    ensures g.iv[t.id].end <= g.iv[u.id].start < g.iv[u.id].end <= g.mx[t.id]
    ensures forall i :: i in Ids(Plug(ip, u.r)) && i in g.iv ==> g.iv[u.id].end <= g.iv[i].start
  {
    FocusApart(s, p, t);
    SuccessorApart(p, t, ip, u);
    IdsPlug(ip, u);
    assert u.r.Node? ==> u.r.id in Ids(t.r);
    SuccessorData(g, t, Lo(g, p), Hi(g, p), ip, u);
  }

  /** The right child, spliced out: `s'` need not be a store the program goes through. */
  lemma AtNear(s: Store, g: Aug, p: Path, t: Tree, q: seq<Id>)
    requires At(s, g, p, t, NIL, false, q) && t.Node? && Successor(t, Top, t.r) && t.l.Node?
    ensures var y, x := t.r.id, RootId(t.r.r);
      && y in s.m && x in s.m && s.m[y].parent in s.m
      && var q' := Order(RightOf(p, t.id, t.c, t.l), t.r.r);
         At(ReplaceLinks(s, y, x), g, p, Shrunk(t, Top, t.r), NIL, false, q')
  {
    var base := RightOf(p, t.id, t.c, t.l);
    AtUp(s, g, base, t.r, NIL, false, q);
    LoneReplaced(s, base, t.r, t.r.r);
    hide At;
    var s' := ReplaceLinks(s, t.r.id, RootId(t.r.r));
    AtSpliced(s, s', g, base, t.r, t.r.r, false, q);
    AtUp(s', g, base, t.r.r, NIL, false, Order(base, t.r.r));
  }

  /** A successor further down, spliced out with its data handed on. */
  lemma AtFar(s: Store, g: Aug, p: Path, t: Tree, ip: Path, u: Tree, q: seq<Id>)
    requires At(s, g, p, t, NIL, false, q) && Successor(t, ip, u)
    ensures var y, x := u.id, RootId(u.r);
      && y in s.m && x in s.m && s.m[y].parent in s.m && HasAug(g, y)
      && var base := RightOf(p, t.id, t.c, t.l);
      && s.m[y].right == x && s.m[y].parent == Above(Graft(ip, base))
      && var q', s' := Order(Graft(ip, base), u.r), ReplaceLinks(s, y, x);
      && At(s', Inherited(g, y, u.r), p, Shrunk(t, ip, u), NIL, false, q')
      && y in s'.m && s'.m[x].parent == Above(Graft(ip, base)) && (u.r.Node? ==> u.r.id != NIL)
  {
    var base := RightOf(p, t.id, t.c, t.l);
    AtUp(s, g, base, t.r, NIL, false, q);
    AtGraft(s, g, ip, base, u, NIL, false, q);
    LoneReplaced(s, Graft(ip, base), u, u.r);
    AtFields(s, g, Graft(ip, base), u, NIL, false, q);
    hide At;
    var s', q' := ReplaceLinks(s, u.id, RootId(u.r)), Order(Graft(ip, base), u.r);
    AtSpliced(s, s', g, Graft(ip, base), u, u.r, true, q);
    var g' := Inherited(g, u.id, u.r);
    AtGraft(s', g', ip, base, u.r, NIL, false, q');
    AtUp(s', g', base, Plug(ip, u.r), NIL, false, q');
  }

  /** The place of the successor calls for the same colours after it has moved up. */
  lemma SuccessorColors(p: Path, t: Tree, ip: Path, u: Tree)
    requires RB(Plug(p, t)) && ColorOf(Plug(p, t)) == Black && Successor(t, ip, u)
    ensures var p' := Graft(ip, RightOf(p, u.id, t.c, t.l));
      && RB(u) && RBPath(p', BlackHeight(u)) && (ColorOf(u) == Red ==> PathColor(p') == Black && !p'.Top?)
  {
    var base := RightOf(p, t.id, t.c, t.l);
    PlugGraft(ip, base, u);
    RBUnplug(Graft(ip, base), u);
    RBGraft(ip, p, t.id, u.id, t.c, t.l, BlackHeight(u));
  }

  lemma {:induction false} PlugGraft(ip: Path, base: Path, t: Tree)
    ensures Plug(Graft(ip, base), t) == Plug(base, Plug(ip, t))
  {
    if !ip.Top? {
      PlugGraft(ip.up, base, Parent(ip, t));
    }
  }

  /** The successor's parent is the node itself just when it is its right child. */
  lemma AboveGraft(s: Store, g: Aug, ip: Path, base: Path, u: Tree, q: seq<Id>)
    requires At(s, g, Graft(ip, base), u, NIL, false, q) && !base.Top?
    ensures Above(Graft(ip, base)) == base.id <==> ip.Top?
  {
    if !ip.Top? {
      GraftDistinct(ip, base);
    }
  }

  lemma {:induction false} GraftDistinct(ip: Path, base: Path)
    requires DistinctPath(Graft(ip, base)) && !base.Top? && !ip.Top?
    ensures ip.id != base.id && base.id in PathIds(Graft(ip, base))
  {
    assert Graft(ip, base).up == Graft(ip.up, base);
    if ip.up.Top? {
      assert base.id in PathIds(base);
    } else {
      GraftDistinct(ip.up, base);
    }
  }

  // ----- after the removal -----

  lemma {:induction false} PlacedAt(p: Path, t: Tree)
    requires t.Node?
    ensures var k := |Before(p)| + |Inorder(t.l)|;
      && k < |Order(p, t)| && Order(p, t)[k] == t.id && RemoveAt(Order(p, t), k) == Without(p, t)
  {
    hide Inorder, Before, After;
    InorderOf(t);
    var a, l, r, b := Before(p), Inorder(t.l), Inorder(t.r), After(p);
    var q := Order(p, t);
    assert q == (a + l) + [t.id] + (r + b);
    assert q[..|a + l|] == a + l;
    assert q[|a + l| + 1..] == r + b;
  }

  lemma RemovedIds(t: Tree, t': Tree, k: nat)
    requires k < |Inorder(t)| && Inorder(t') == RemoveAt(Inorder(t), k) && NoDup(Inorder(t))
    ensures Ids(t') == Ids(t) - {Inorder(t)[k]} && |Inorder(t')| == |Inorder(t)| - 1
  {
    IdsInorder(t);
    IdsInorder(t');
    hide Inorder, Ids;
    RemovedElements(Inorder(t), k);
  }

  /** Freeing a node that is not in the tree. */
  lemma FreedFocus(s: Store, t: Tree, z: Id)
    requires Focus(s, Top, t) && z != NIL && z !in Ids(t)
    ensures Focus(s.(m := s.m - {z}), Top, t)
  {
    UnchangedLinks(s, s.(m := s.m - {z}), t, NIL, {z});
  }

  lemma AtFreed(s: Store, g: Aug, t: Tree, q: seq<Id>, z: Id)
    requires At(s, g, Top, t, NIL, false, q) && z != NIL && z !in Ids(t)
    ensures At(s.(m := s.m - {z}), g, Top, t, NIL, false, q)
  {
    FreedFocus(s, t, z);
  }

  lemma PairsRemove(ids: set<Id>, iv: map<Id, Interval>, val: map<Id, nat>, z: Id)
    requires Known(ids, iv, val) && z in ids
    requires forall i :: i in ids && i != z ==> iv[i] != iv[z]
    ensures Known(ids - {z}, iv, val)
    ensures Pairs(ids - {z}, iv, val) == Pairs(ids, iv, val) - {(iv[z], val[z])}
  {
    var a, b := Pairs(ids - {z}, iv, val), Pairs(ids, iv, val) - {(iv[z], val[z])};
    forall x | x in b
      ensures x in a
    {
      var j :| j in ids && x == (iv[j], val[j]);
      assert j in ids - {z};
    }
  }

  /** Stored intervals are all different. */
  lemma DistinctIntervals(iv: map<Id, Interval>, q: seq<Id>, z: Id)
    requires Between(iv, q, 0, U64_MAX) && z in q
    ensures forall i :: i in q && i != z ==> i in iv && iv[i] != iv[z]
  {
    forall i | i in q && i != z
      ensures i in iv && iv[i] != iv[z]
    {
      var a :| 0 <= a < |q| && q[a] == z;
      var b :| 0 <= b < |q| && q[b] == i;
      if a < b {
        assert iv[q[a]].end <= iv[q[b]].start;
      } else {
        assert iv[q[b]].end <= iv[q[a]].start;
      }
    }
  }

  lemma AtInexact(s: Store, g: Aug, t: Tree, exact: bool, q: seq<Id>)
    requires At(s, g, Top, t, NIL, exact, q)
    ensures At(s, g, Top, t, NIL, false, q)
  {
    AugInexact(g, t, NIL, exact);
  }

  lemma PairsHas(ids: set<Id>, iv: map<Id, Interval>, val: map<Id, nat>, z: Id)
    requires Known(ids, iv, val)
    ensures z in ids ==> (iv[z], val[z]) in Pairs(ids, iv, val)
  {
  }

  lemma {:induction false} BelowTop(g: Aug, p: Path, n: Id, exact: bool)
    requires AugSides(g, p, n, exact)
    ensures Hi(g, p) <= U64_MAX
  {
    if !p.Top? {
      BelowTop(g, p.up, n, exact);
    }
  }
}
