/** Half-open intervals, and the min/max fields that the interval tree keeps in its nodes. */
module IntervalModel {
  import opened Base
  import opened RbModel
  import opened ChainModel

  datatype Interval = Interval(start: nat, end: nat)

  /** The header's `overlaps`, which goes through `intersection` and the null set. */
  function Intersection(i: Interval, j: Interval): Interval {
    if j.start >= i.end || i.start >= j.end then Interval(U64_MAX, 0)
    else Interval(Max(i.start, j.start), Min(i.end, j.end))
  }

  predicate Overlaps(i: Interval, j: Interval) {
    Intersection(i, j) != Interval(U64_MAX, 0)
  }

  /** The interval data attached to the nodes. */
  datatype Aug = Aug(iv: map<Id, Interval>, mx: map<Id, nat>, mn: map<Id, nat>)

  ghost predicate HasAug(g: Aug, i: Id) { i in g.iv && i in g.mx && i in g.mn }

  function MaxOf(g: Aug, i: Id): nat { if i == NIL || i !in g.mx then 0 else g.mx[i] }
  function MinOf(g: Aug, i: Id): nat { if i == NIL || i !in g.mn then U64_MAX else g.mn[i] }

  function MaxAt(g: Aug, i: Id, l: Id, r: Id): nat requires i in g.iv {
    Max(g.iv[i].end, Max(MaxOf(g, l), MaxOf(g, r)))
  }
  function MinAt(g: Aug, i: Id, l: Id, r: Id): nat requires i in g.iv {
    Min(g.iv[i].start, Min(MinOf(g, l), MinOf(g, r)))
  }

  /** A node's recorded max is at least, and its recorded min at most, what its interval and
      its children call for; when `exact`, they are just that. */
  ghost predicate Local(g: Aug, i: Id, l: Id, r: Id, exact: bool)
    requires HasAug(g, i)
  {
    && g.mx[i] >= MaxAt(g, i, l, r) && g.mn[i] <= MinAt(g, i, l, r)
    && (exact ==> g.mx[i] == MaxAt(g, i, l, r) && g.mn[i] == MinAt(g, i, l, r))
  }

  /** The invariant that keeps search right although maxima go stale.  The intervals of `t` lie
      in order and apart between `lo` and `hi`, where `hi` is the start of the nearest node that
      has `t` on its left; and whatever is recorded for a subtree stays below that bound too.
      `n` is a node whose own data, and whose ancestors' data, are still to be computed. */
  ghost predicate AugTree(g: Aug, t: Tree, lo: nat, hi: nat, n: Id, exact: bool) {
    t.Node? ==>
      && HasAug(g, t.id) && lo <= g.iv[t.id].start < g.iv[t.id].end <= hi
      && AugTree(g, t.l, lo, g.iv[t.id].start, n, exact)
      && AugTree(g, t.r, g.iv[t.id].end, hi, n, exact)
      && (n !in Ids(t) ==> Local(g, t.id, RootId(t.l), RootId(t.r), exact) && g.mx[t.id] <= hi)
  }

  /** The bounds that a path puts on the subtree at its end. */
  function Lo(g: Aug, p: Path): nat {
    match p
    case Top => 0
    case LeftOf(up, _, _, _) => Lo(g, up)
    case RightOf(_, id, _, _) => if id in g.iv then g.iv[id].end else 0
  }

  function Hi(g: Aug, p: Path): nat {
    match p
    case Top => U64_MAX
    case LeftOf(_, id, _, _) => if id in g.iv then g.iv[id].start else 0
    case RightOf(up, _, _, _) => Hi(g, up)
  }

  /** What hangs beside a path is in order. */
  ghost predicate AugSides(g: Aug, p: Path, n: Id, exact: bool) {
    !p.Top? ==>
      && HasAug(g, p.id) && Lo(g, p.up) <= g.iv[p.id].start < g.iv[p.id].end <= Hi(g, p.up)
      && (if p.LeftOf? then AugTree(g, p.sib, g.iv[p.id].end, Hi(g, p.up), n, exact)
          else AugTree(g, p.sib, Lo(g, p.up), g.iv[p.id].start, n, exact))
      && AugSides(g, p.up, n, exact)
  }

  /** The data of the path's own nodes; `inside` tells whether `n` is at or below its end. */
  ghost predicate AugSpine(g: Aug, p: Path, at: Id, inside: bool, n: Id, exact: bool)
    requires AugSides(g, p, n, exact)
  {
    !p.Top? ==>
      var inside' := inside || n == p.id || n in Ids(p.sib);
      && (!inside' ==>
            && Local(g, p.id, if p.LeftOf? then at else RootId(p.sib),
                     if p.LeftOf? then RootId(p.sib) else at, exact)
            && g.mx[p.id] <= Hi(g, p.up))
      && AugSpine(g, p.up, p.id, inside', n, exact)
  }

  ghost predicate AugFocus(g: Aug, p: Path, t: Tree, n: Id, exact: bool) {
    && AugTree(g, t, Lo(g, p), Hi(g, p), n, exact)
    && AugSides(g, p, n, exact) && AugSpine(g, p, RootId(t), n in Ids(t), n, exact)
  }

  lemma AugUp(g: Aug, p: Path, t: Tree, n: Id, exact: bool)
    ensures !p.Top? ==> (AugFocus(g, p, t, n, exact) <==> AugFocus(g, p.up, Parent(p, t), n, exact))
  {
  }

  lemma AugUnplug(g: Aug, p: Path, t: Tree, n: Id, exact: bool)
    ensures AugFocus(g, Top, Plug(p, t), n, exact) <==> AugFocus(g, p, t, n, exact)
  {
    if !p.Top? {
      AugUp(g, p, t, n, exact);
      AugUnplug(g, p.up, Parent(p, t), n, exact);
    }
  }

  /** Only the data of the node `k` may differ. */
  ghost predicate OnlyAt(g: Aug, g': Aug, k: Id) {
    forall i :: i != k && HasAug(g, i) ==>
      HasAug(g', i) && g'.iv[i] == g.iv[i] && g'.mx[i] == g.mx[i] && g'.mn[i] == g.mn[i]
  }

  lemma AugTreeSame(g: Aug, g': Aug, t: Tree, lo: nat, hi: nat, n: Id, exact: bool, k: Id)
    requires AugTree(g, t, lo, hi, n, exact) && OnlyAt(g, g', k) && k !in Ids(t)
    ensures AugTree(g', t, lo, hi, n, exact)
  {
    if t.Node? {
      assert HasAug(g, t.id);
      assert t.l.Node? ==> t.l.id in Ids(t) && HasAug(g, t.l.id);
      assert t.r.Node? ==> t.r.id in Ids(t) && HasAug(g, t.r.id);
      AugTreeSame(g, g', t.l, lo, g.iv[t.id].start, n, exact, k);
      AugTreeSame(g, g', t.r, g.iv[t.id].end, hi, n, exact, k);
    }
  }

  lemma AugSidesSame(g: Aug, g': Aug, p: Path, n: Id, exact: bool, k: Id)
    requires AugSides(g, p, n, exact) && OnlyAt(g, g', k) && k !in PathIds(p)
    ensures AugSides(g', p, n, exact)
    ensures Lo(g', p) == Lo(g, p) && Hi(g', p) == Hi(g, p)
  {
    if !p.Top? {
      AugSidesSame(g, g', p.up, n, exact, k);
      assert HasAug(g, p.id);
      if p.LeftOf? {
        AugTreeSame(g, g', p.sib, g.iv[p.id].end, Hi(g, p.up), n, exact, k);
      } else {
        AugTreeSame(g, g', p.sib, Lo(g, p.up), g.iv[p.id].start, n, exact, k);
      }
    }
  }

  /** The node `t.id` is the only one at or below which anything is to be computed. */
  ghost predicate Pending(g: Aug, p: Path, t: Tree, n: Id, exact: bool) {
    && t.Node? && AugSides(g, p, n, exact)
    && HasAug(g, t.id) && Lo(g, p) <= g.iv[t.id].start < g.iv[t.id].end <= Hi(g, p)
    && AugTree(g, t.l, Lo(g, p), g.iv[t.id].start, n, exact)
    && AugTree(g, t.r, g.iv[t.id].end, Hi(g, p), n, exact)
  }

  function Recomputed(g: Aug, x: Id, l: Id, r: Id): Aug
    requires x in g.iv
  {
    g.(mx := g.mx[x := MaxAt(g, x, l, r)], mn := g.mn[x := MinAt(g, x, l, r)])
  }

  lemma RecomputedOk(g: Aug, p: Path, t: Tree, n: Id, exact: bool)
    requires Apart(p, t) && Pending(g, p, t, n, exact)
    ensures var g' := Recomputed(g, t.id, RootId(t.l), RootId(t.r));
      && AugTree(g', t, Lo(g', p), Hi(g', p), n, exact) && AugSides(g', p, n, exact)
  {
    var g' := Recomputed(g, t.id, RootId(t.l), RootId(t.r));
    AugTreeSame(g, g', t.l, Lo(g, p), g.iv[t.id].start, n, exact, t.id);
    AugTreeSame(g, g', t.r, g.iv[t.id].end, Hi(g, p), n, exact, t.id);
    AugSidesSame(g, g', p, n, exact, t.id);
  }

  /** One turn of the climb: the node is recomputed, and its parent is next. */
  lemma Climb(s: Store, g: Aug, p: Path, t: Tree, n: Id, exact: bool)
    requires Focus(s, p, t) && Pending(g, p, t, n, exact)
    ensures var g' := Recomputed(g, t.id, RootId(t.l), RootId(t.r));
      if p.Top? then AugFocus(g', p, t, n, exact)
      else Focus(s, p.up, Parent(p, t)) && Pending(g', p.up, Parent(p, t), n, exact)
  {
    FocusApart(s, p, t);
    RecomputedOk(g, p, t, n, exact);
    FocusUp(s, p, t);
  }

  /** The rotation callback: the node that comes up takes over the data of the one that goes down. */
  function Handed(g: Aug, x: Id, y: Id): Aug
    requires HasAug(g, x)
  {
    g.(mx := g.mx[y := g.mx[x]], mn := g.mn[y := g.mn[x]])
  }

  lemma RotLPending(g: Aug, p: Path, t: Tree, n: Id, exact: bool)
    requires t.Node? && t.r.Node? && Apart(p, t) && AugFocus(g, p, t, n, exact)
    ensures HasAug(g, t.id)
    ensures Pending(Handed(g, t.id, t.r.id), LeftOf(p, t.r.id, t.r.c, t.r.r),
                    Node(t.l, t.id, t.c, t.r.l), n, exact)
  {
    var g' := Handed(g, t.id, t.r.id);
    assert Distinct(t.r) && AugTree(g, t.r, g.iv[t.id].end, Hi(g, p), n, exact);
    AugTreeSame(g, g', t.l, Lo(g, p), g.iv[t.id].start, n, exact, t.r.id);
    AugTreeSame(g, g', t.r.l, g.iv[t.id].end, g.iv[t.r.id].start, n, exact, t.r.id);
    AugTreeSame(g, g', t.r.r, g.iv[t.r.id].end, Hi(g, p), n, exact, t.r.id);
    AugSidesSame(g, g', p, n, exact, t.r.id);
  }

  lemma RotRPending(g: Aug, p: Path, t: Tree, n: Id, exact: bool)
    requires t.Node? && t.l.Node? && Apart(p, t) && AugFocus(g, p, t, n, exact)
    ensures HasAug(g, t.id)
    ensures Pending(Handed(g, t.id, t.l.id), RightOf(p, t.l.id, t.l.c, t.l.l),
                    Node(t.l.r, t.id, t.c, t.r), n, exact)
  {
    var g' := Handed(g, t.id, t.l.id);
    assert Distinct(t.l) && AugTree(g, t.l, Lo(g, p), g.iv[t.id].start, n, exact);
    AugTreeSame(g, g', t.l.l, Lo(g, p), g.iv[t.l.id].start, n, exact, t.l.id);
    AugTreeSame(g, g', t.l.r, g.iv[t.l.id].end, g.iv[t.id].start, n, exact, t.l.id);
    AugTreeSame(g, g', t.r, g.iv[t.id].end, Hi(g, p), n, exact, t.l.id);
    AugSidesSame(g, g', p, n, exact, t.l.id);
  }

  // ----- everything that holds at a focus -----

  /** The store holds `t` at the end of `p`, its data are right but for what `n` leaves pending,
      and the nodes come in the order `q`. */
  ghost predicate At(s: Store, g: Aug, p: Path, t: Tree, n: Id, exact: bool, q: seq<Id>) {
    Focus(s, p, t) && AugFocus(g, p, t, n, exact) && Order(p, t) == q
  }

  lemma AtUp(s: Store, g: Aug, p: Path, t: Tree, n: Id, exact: bool, q: seq<Id>)
    ensures !p.Top? ==> (At(s, g, p, t, n, exact, q) <==> At(s, g, p.up, Parent(p, t), n, exact, q))
  {
    if !p.Top? {
      FocusUp(s, p, t);
      AugUp(g, p, t, n, exact);
      OrderUp(p, t);
    }
  }

  lemma AtPlug(s: Store, g: Aug, p: Path, t: Tree, n: Id, exact: bool, q: seq<Id>)
    ensures At(s, g, p, t, n, exact, q) <==> At(s, g, Top, Plug(p, t), n, exact, q)
  {
    hide At;
    if !p.Top? {
      AtUp(s, g, p, t, n, exact, q);
      AtPlug(s, g, p.up, Parent(p, t), n, exact, q);
    }
  }

  lemma AtPaint(s: Store, g: Aug, p: Path, t: Tree, n: Id, exact: bool, q: seq<Id>, c: Color)
    requires At(s, g, p, t, n, exact, q) && t.Node?
    ensures t.id in s.m && At(SetColor(s, t.id, c), g, p, t.(c := c), n, exact, q)
  {
    Paint(s, p, t, c);
  }

  lemma AtPaintAbove(s: Store, g: Aug, p: Path, t: Tree, n: Id, exact: bool, q: seq<Id>, c: Color)
    requires At(s, g, p, t, n, exact, q) && !p.Top?
    ensures p.id in s.m && At(SetColor(s, p.id, c), g, Colored(p, c), t, n, exact, q)
  {
    hide At;
    AtUp(s, g, p, t, n, exact, q);
    AtPaint(s, g, p.up, Parent(p, t), n, exact, q, c);
    AtUp(SetColor(s, p.id, c), g, Colored(p, c), t, n, exact, q);
  }

  lemma AtPaintBeside(s: Store, g: Aug, p: Path, t: Tree, n: Id, exact: bool, q: seq<Id>, c: Color)
    requires At(s, g, p, t, n, exact, q) && !p.Top? && p.sib.Node?
    ensures p.sib.id in s.m && At(SetColor(s, p.sib.id, c), g, Beside(p, p.sib.(c := c)), t, n, exact, q)
  {
    hide At;
    var across := if p.LeftOf? then RightOf(p.up, p.id, p.c, t) else LeftOf(p.up, p.id, p.c, t);
    AtUp(s, g, p, t, n, exact, q);
    AtUp(s, g, across, p.sib, n, exact, q);
    AtPaint(s, g, across, p.sib, n, exact, q, c);
    AtUp(SetColor(s, p.sib.id, c), g, across, p.sib.(c := c), n, exact, q);
    AtUp(SetColor(s, p.sib.id, c), g, Beside(p, p.sib.(c := c)), t, n, exact, q);
  }

  lemma AtFields(s: Store, g: Aug, p: Path, t: Tree, n: Id, exact: bool, q: seq<Id>)
    requires At(s, g, p, t, n, exact, q) && t.Node?
    ensures t.id != NIL && Holds(s, t.id, Rec(RootId(t.l), RootId(t.r), Above(p), t.c))
    ensures NIL in s.m && s.m[NIL].color == Black && (p.Top? ==> s.root == t.id)
    ensures !p.Top? ==>
      && p.id != NIL && p.id != t.id && Holds(s, p.id, PathRec(p, t.id)) && RootId(p.sib) != t.id
      && (p.sib.Node? ==> p.sib.id in s.m && s.m[p.sib.id].color == p.sib.c)
  {
    FocusFields(s, p, t);
  }

  lemma AtAcross(s: Store, g: Aug, p: Path, t: Tree, n: Id, exact: bool, q: seq<Id>)
    requires !p.Top?
    ensures At(s, g, p, t, n, exact, q) <==> At(s, g, Across(p, t), p.sib, n, exact, q)
  {
    hide At;
    AtUp(s, g, p, t, n, exact, q);
    AtUp(s, g, Across(p, t), p.sib, n, exact, q);
  }

  /** The link from the end of a path back to the node above, which the sentinel has too while
      a delete is being repaired. */
  ghost predicate LinkedUp(s: Store, p: Path, t: Tree) {
    RootId(t) in s.m && s.m[RootId(t)].parent == Above(p) && s.m[RootId(t)].color == ColorOf(t)
  }

  /** What the store holds above the focus and beside it, also when the focus is the sentinel. */
  lemma AtAbove(s: Store, g: Aug, p: Path, t: Tree, n: Id, exact: bool, q: seq<Id>)
    requires At(s, g, p, t, n, exact, q)
    ensures NIL in s.m && s.m[NIL].color == Black && (p.Top? <==> s.root == RootId(t))
    ensures !p.Top? ==> p.id != NIL && Holds(s, p.id, PathRec(p, RootId(t)))
    ensures !p.Top? && p.sib.Node? ==>
      && p.sib.id != NIL && p.sib.id != RootId(t) && p.sib.id != p.id
      && Holds(s, p.sib.id, Rec(RootId(p.sib.l), RootId(p.sib.r), p.id, p.sib.c))
      && (p.sib.l.Node? ==> Holds(s, p.sib.l.id, Rec(RootId(p.sib.l.l), RootId(p.sib.l.r), p.sib.id, p.sib.l.c)))
      && (p.sib.r.Node? ==> Holds(s, p.sib.r.id, Rec(RootId(p.sib.r.l), RootId(p.sib.r.r), p.sib.id, p.sib.r.c)))
  {
    FocusApart(s, p, t);
    assert t.Node? ==> t.id in Ids(t);
    if !p.Top? {
      RootInPath(s, p, RootId(t));
      assert Links(s, p.sib, p.id);
      if p.sib.Node? {
        assert p.sib.id in Ids(p.sib);
        assert Links(s, p.sib.l, p.sib.id) && Links(s, p.sib.r, p.sib.id);
      }
    }
  }

  // ----- order -----

  /** The intervals of `q` lie in order and apart, between `lo` and `hi`. */
  ghost predicate Between(iv: map<Id, Interval>, q: seq<Id>, lo: nat, hi: nat) {
    && lo <= hi
    && (forall i :: 0 <= i < |q| ==> q[i] in iv && lo <= iv[q[i]].start < iv[q[i]].end <= hi)
    && (forall i, j :: 0 <= i < j < |q| ==> iv[q[i]].end <= iv[q[j]].start)
  }

  lemma BetweenConcat(iv: map<Id, Interval>, a: seq<Id>, b: seq<Id>, lo: nat, mid: nat, hi: nat)
    requires Between(iv, a, lo, mid) && Between(iv, b, mid, hi)
    ensures Between(iv, a + b, lo, hi)
  {
  }

  lemma TreeBetween(g: Aug, t: Tree, lo: nat, hi: nat, n: Id, exact: bool)
    requires AugTree(g, t, lo, hi, n, exact) && lo <= hi
    ensures Between(g.iv, Inorder(t), lo, hi)
  {
    if t.Node? {
      var i := g.iv[t.id];
      TreeBetween(g, t.l, lo, i.start, n, exact);
      TreeBetween(g, t.r, i.end, hi, n, exact);
      BetweenConcat(g.iv, Inorder(t.l), [t.id], lo, i.start, i.end);
      BetweenConcat(g.iv, Inorder(t.l) + [t.id], Inorder(t.r), lo, i.end, hi);
    }
  }

  lemma PathBetween(g: Aug, p: Path, n: Id, exact: bool)
    requires AugSides(g, p, n, exact)
    ensures Between(g.iv, Before(p), 0, Lo(g, p)) && Between(g.iv, After(p), Hi(g, p), U64_MAX)
  {
    if !p.Top? {
      var i := g.iv[p.id];
      PathBetween(g, p.up, n, exact);
      if p.LeftOf? {
        TreeBetween(g, p.sib, i.end, Hi(g, p.up), n, exact);
        BetweenConcat(g.iv, [p.id], Inorder(p.sib), i.start, i.end, Hi(g, p.up));
        BetweenConcat(g.iv, [p.id] + Inorder(p.sib), After(p.up), i.start, Hi(g, p.up), U64_MAX);
      } else {
        TreeBetween(g, p.sib, Lo(g, p.up), i.start, n, exact);
        BetweenConcat(g.iv, Before(p.up), Inorder(p.sib), 0, Lo(g, p.up), i.start);
        BetweenConcat(g.iv, Before(p.up) + Inorder(p.sib), [p.id], 0, i.start, i.end);
      }
    }
  }

  // ----- inserting and finding a node -----

  lemma IdsInorder(t: Tree)
    ensures forall i :: i in Ids(t) <==> i in Inorder(t)
  {
  }

  /** A new node hung at the end of a path that leads nowhere yet. */
  lemma HungFocus(s: Store, s': Store, p: Path, z: Id)
    requires Focus(s, p, Nil) && z != NIL && z !in s.m
    requires Unchanged(s, s', if p.Top? then {} else {p.id}) && Relinked(s', p, z, s.root)
    requires Holds(s', z, Rec(NIL, NIL, Above(p), Red))
    ensures Focus(s', p, Node(Nil, z, Red, Nil))
  {
    FocusApart(s, p, Nil);
    NotInPath(s, p, NIL, z);
    assert !p.Top? ==> p.id in PathIds(p);
    RelinkedPath(s, s', p, NIL, z, if p.Top? then {} else {p.id});
  }

  lemma FreshOutside(s: Store, p: Path, z: Id)
    requires Focus(s, p, Nil) && z !in s.m
    ensures z !in PathIds(p)
  {
    NotInPath(s, p, NIL, z);
  }

  lemma NotInTree(s: Store, t: Tree, p: Id, z: Id)
    requires Links(s, t, p) && z !in s.m
    ensures z !in Ids(t)
  {
  }

  lemma NotInPath(s: Store, p: Path, at: Id, z: Id)
    requires PathLinks(s, p, at) && z !in s.m
    ensures z !in PathIds(p)
  {
    if !p.Top? {
      NotInTree(s, p.sib, p.id, z);
      NotInPath(s, p.up, p.id, z);
    }
  }

  /** With the new node pending, nothing else needs recomputing yet. */
  lemma HungAug(g: Aug, g': Aug, p: Path, z: Id, exact: bool)
    requires AugFocus(g, p, Nil, NIL, exact) && z !in PathIds(p) && NIL !in PathIds(p) && OnlyAt(g, g', z)
    requires HasAug(g', z) && Lo(g, p) <= g'.iv[z].start < g'.iv[z].end <= Hi(g, p)
    ensures AugFocus(g', p, Node(Nil, z, Red, Nil), z, exact)
  {
    AugSidesFor(g, p, NIL, z, exact);
    AugSidesSame(g, g', p, z, exact, z);
    SpinePending(g', p, z, z, exact);
  }

  /** Which node is pending does not matter to a tree it is not in. */
  lemma AugTreeFor(g: Aug, t: Tree, lo: nat, hi: nat, n: Id, n': Id, exact: bool)
    requires AugTree(g, t, lo, hi, n, exact) && n !in Ids(t)
    ensures AugTree(g, t, lo, hi, n', exact)
  {
    if t.Node? {
      AugTreeFor(g, t.l, lo, g.iv[t.id].start, n, n', exact);
      AugTreeFor(g, t.r, g.iv[t.id].end, hi, n, n', exact);
    }
  }

  lemma AugSidesFor(g: Aug, p: Path, n: Id, n': Id, exact: bool)
    requires AugSides(g, p, n, exact) && n !in PathIds(p)
    ensures AugSides(g, p, n', exact)
  {
    if !p.Top? {
      if p.LeftOf? {
        AugTreeFor(g, p.sib, g.iv[p.id].end, Hi(g, p.up), n, n', exact);
      } else {
        AugTreeFor(g, p.sib, Lo(g, p.up), g.iv[p.id].start, n, n', exact);
      }
      AugSidesFor(g, p.up, n, n', exact);
    }
  }

  lemma SpinePending(g: Aug, p: Path, at: Id, n: Id, exact: bool)
    requires AugSides(g, p, n, exact)
    ensures AugSpine(g, p, at, true, n, exact)
  {
  }

  /** The path to a node, and the subtree there. */
  function Locate(p: Path, t: Tree, z: Id): (Path, Tree)
    decreases t
  {
    if t.Nil? || t.id == z then (p, t)
    else if z in Ids(t.l) then Locate(LeftOf(p, t.id, t.c, t.r), t.l, z)
    else Locate(RightOf(p, t.id, t.c, t.l), t.r, z)
  }

  lemma AtLocate(s: Store, g: Aug, p: Path, t: Tree, n: Id, exact: bool, q: seq<Id>, z: Id)
    requires At(s, g, p, t, n, exact, q) && z in Ids(t)
    ensures var (p', t') := Locate(p, t, z);
      At(s, g, p', t', n, exact, q) && t'.Node? && t'.id == z && Plug(p', t') == Plug(p, t)
    decreases t
  {
    hide At;
    if t.id != z {
      var p' := if z in Ids(t.l) then LeftOf(p, t.id, t.c, t.r) else RightOf(p, t.id, t.c, t.l);
      var t' := if z in Ids(t.l) then t.l else t.r;
      AtUp(s, g, p', t', n, exact, q);
      AtLocate(s, g, p', t', n, exact, q, z);
    }
  }

  /** A pending node at the focus is ready to be recomputed. */
  lemma FocusPending(g: Aug, p: Path, t: Tree, n: Id, exact: bool)
    requires AugFocus(g, p, t, n, exact) && t.Node? && t.id == n && Apart(p, t)
    ensures Pending(g, p, t, NIL, exact)
  {
    assert n in Ids(t);
    AugSidesFor(g, p, n, NIL, exact);
    AugTreeFor(g, t.l, Lo(g, p), g.iv[n].start, n, NIL, exact);
    AugTreeFor(g, t.r, g.iv[n].end, Hi(g, p), n, NIL, exact);
  }

  lemma AtInterval(s: Store, g: Aug, p: Path, t: Tree, n: Id, exact: bool, q: seq<Id>)
    requires At(s, g, p, t, n, exact, q) && t.Node?
    ensures HasAug(g, t.id) && Lo(g, p) <= g.iv[t.id].start < g.iv[t.id].end <= Hi(g, p)
  {
  }

  /** The place that the list search finds for a new interval is the one the tree gives it. */
  lemma SamePlace(g: Aug, p: Path, n: Id, exact: bool, q: seq<Id>, k: nat, z: Id)
    requires AugSides(g, p, n, exact) && q == Before(p) + After(p) && k <= |q|
    requires HasAug(g, z) && Lo(g, p) <= g.iv[z].start < g.iv[z].end <= Hi(g, p)
    requires forall i :: 0 <= i < |q| ==> q[i] in g.iv
    requires forall i :: 0 <= i < k ==> g.iv[q[i]].start < g.iv[z].start
    requires k < |q| ==> g.iv[q[k]].start >= g.iv[z].start
    ensures q[..k] == Before(p) && q[k..] == After(p)
  {
    PathBetween(g, p, n, exact);
    assert forall i :: 0 <= i < |Before(p)| ==> q[i] == Before(p)[i];
    assert forall i :: |Before(p)| <= i < |q| ==> q[i] == After(p)[i - |Before(p)|];
    var next := if |Before(p)| < |q| then q[|Before(p)|] else NIL;
    assert k == |Before(p)|;
  }

  lemma AtOrder(s: Store, g: Aug, t: Tree, n: Id, exact: bool, q: seq<Id>)
    requires At(s, g, Top, t, n, exact, q)
    ensures q == Inorder(t) && Between(g.iv, q, 0, U64_MAX) && NoDup(q)
    ensures forall i :: i in Ids(t) <==> i in q
  {
    assert Order(Top, t) == Inorder(t);
    FocusApart(s, Top, t);
    IdsInorder(t);
    TreeBetween(g, t, 0, U64_MAX, n, exact);
  }

  /** Around the place found for a new node `z`. */
  lemma SlotOrder(s: Store, g: Aug, p: Path, exact: bool, q: seq<Id>, z: Id, i: Interval)
    requires At(s, g, p, Nil, NIL, exact, q) && z !in s.m
    ensures NoDup(q) && z !in q && q == Before(p) + After(p) && Between(g.iv[z := i], q, 0, U64_MAX)
  {
    NilOrder(p);
    assert q == Before(p) + After(p);
    hide At, NoDup;
    AtPlug(s, g, p, Nil, NIL, exact, q);
    AtOrder(s, g, Plug(p, Nil), NIL, exact, q);
    FreshId(s, g, Plug(p, Nil), NIL, exact, q, z);
    BetweenFresh(g.iv, q, z, i);
  }

  lemma NilOrder(p: Path)
    ensures Order(p, Nil) == Before(p) + After(p)
  {
    assert Before(p) + [] + After(p) == Before(p) + After(p);
  }

  lemma BetweenFresh(iv: map<Id, Interval>, q: seq<Id>, z: Id, i: Interval)
    requires Between(iv, q, 0, U64_MAX) && z !in q
    ensures Between(iv[z := i], q, 0, U64_MAX)
  {
  }

  lemma FreshId(s: Store, g: Aug, t: Tree, n: Id, exact: bool, q: seq<Id>, z: Id)
    requires At(s, g, Top, t, n, exact, q) && z !in s.m
    ensures z !in Ids(t)
  {
    NotInTree(s, t, NIL, z);
  }

  lemma SlotPlace(s: Store, g: Aug, p: Path, exact: bool, q: seq<Id>, k: nat, z: Id)
    requires At(s, g, p, Node(Nil, z, Red, Nil), z, exact, Before(p) + [z] + After(p))
    requires q == Before(p) + After(p) && k <= |q| && Between(g.iv, q, 0, U64_MAX) && z in g.iv
    requires forall i :: 0 <= i < k ==> g.iv[q[i]].start < g.iv[z].start
    requires k < |q| ==> g.iv[q[k]].start >= g.iv[z].start
    ensures InsertAt(q, k, z) == Before(p) + [z] + After(p)
  {
    AtInterval(s, g, p, Node(Nil, z, Red, Nil), z, exact, Before(p) + [z] + After(p));
    SamePlace(g, p, z, exact, q, k, z);
  }

  lemma InsertedIds(t: Tree, t': Tree, k: nat, z: Id)
    requires k <= |Inorder(t)| && Inorder(t') == InsertAt(Inorder(t), k, z)
    ensures Ids(t') == Ids(t) + {z} && |Inorder(t')| == |Inorder(t)| + 1
  {
    var q := Inorder(t);
    IdsInorder(t);
    IdsInorder(t');
    assert q == q[..k] + q[k..];
  }

  /** Before and after the data of a new node, and of its ancestors, are computed. */
  lemma ReadyAt(s: Store, g: Aug, p: Path, t: Tree, n: Id, exact: bool, q: seq<Id>)
    requires At(s, g, p, t, n, exact, q) && t.Node? && t.id == n
    ensures Focus(s, p, t) && Pending(g, p, t, NIL, exact)
  {
    FocusApart(s, p, t);
    FocusPending(g, p, t, n, exact);
  }

  lemma ReadyDone(s: Store, g: Aug, g': Aug, p: Path, t: Tree, n: Id, exact: bool, q: seq<Id>)
    requires At(s, g, p, t, n, exact, q) && AugFocus(g', p, t, NIL, exact)
    ensures At(s, g', Top, Plug(p, t), NIL, exact, q)
  {
    AtPlug(s, g', p, t, NIL, exact, q);
  }

  /** The ends of the list are the least and the greatest interval. */
  lemma Extremes(iv: map<Id, Interval>, q: seq<Id>, z: Id)
    requires Between(iv, q, 0, U64_MAX) && z in q
    ensures Nth(q, 0) in iv && Nth(q, |q| - 1) in iv
    ensures iv[Nth(q, 0)].start <= iv[z].start
    ensures iv[z].start >= iv[Nth(q, |q| - 1)].start ==> z == Nth(q, |q| - 1)
  {
    var k :| 0 <= k < |q| && q[k] == z;
    assert k < |q| - 1 ==> iv[q[k]].end <= iv[q[|q| - 1]].start;
  }

  // ----- the stored intervals -----

  ghost predicate Known(ids: set<Id>, iv: map<Id, Interval>, val: map<Id, nat>) {
    forall i :: i in ids ==> i in iv && i in val
  }

  ghost function Pairs(ids: set<Id>, iv: map<Id, Interval>, val: map<Id, nat>): set<(Interval, nat)>
    requires Known(ids, iv, val)
  {
    set i | i in ids :: (iv[i], val[i])
  }

  lemma PairsInsert(ids: set<Id>, iv: map<Id, Interval>, val: map<Id, nat>, z: Id, i: Interval, v: nat)
    requires Known(ids, iv, val) && z !in ids
    ensures Known(ids + {z}, iv[z := i], val[z := v])
    ensures Pairs(ids + {z}, iv[z := i], val[z := v]) == Pairs(ids, iv, val) + {(i, v)}
  {
    var a, b := Pairs(ids + {z}, iv[z := i], val[z := v]), Pairs(ids, iv, val) + {(i, v)};
    forall x | x in b
      ensures x in a
    {
      if x == (i, v) {
        assert z in ids + {z};
      } else {
        var j :| j in ids && x == (iv[j], val[j]);
        assert j in ids + {z} && x == (iv[z := i][j], val[z := v][j]);
      }
    }
    forall x | x in a
      ensures x in b
    {
      var j :| j in ids + {z} && x == (iv[z := i][j], val[z := v][j]);
      assert j != z ==> x == (iv[j], val[j]);
    }
  }

  lemma AtOrderIs(s: Store, g: Aug, p: Path, t: Tree, n: Id, exact: bool, q: seq<Id>)
    requires At(s, g, p, t, n, exact, q)
    ensures Order(p, t) == q
  {
  }
}
