/** The walk over a whole page cache, kernel/mm/pgcache.c, that frees it. */
module PgVisits {
  import opened Base
  import opened PgCacheModel
  import opened PgCaches

  // ----- which slots the walk looks at -----

  /** Slot `i` shifted left by `k` digits as a 32-bit integer, widened with its sign to 64 bits.
      The processor takes the count of the shift modulo 32, which is 8 digits. */
  function SlotStart(i: nat, k: nat): nat {
    var w := i * Pow16(k % 8);
    if w < 0x8000_0000 then w else w + 0xFFFF_FFFF_0000_0000
  }

  function SlotEnd(i: nat, k: nat): nat { (SlotStart(i, k) + Pow16(k)) % 0x1_0000_0000_0000_0000 }

  /** A slot of a node `k` levels above the leaves is in the range from 0 to `end`. */
  predicate Looks(i: nat, k: nat, end: nat) { SlotEnd(i, k) > 0 && SlotStart(i, k) < end }

  lemma {:induction false} PowMono(a: nat, b: nat)
    requires a <= b
    ensures Pow16(a) <= Pow16(b)
  {
    if a < b {
      PowMono(a, b - 1);
    }
  }

  lemma Pow16Values()
    ensures Pow16(0) == 1 && Pow16(1) == 16 && Pow16(2) == 256 && Pow16(3) == 4096 && Pow16(4) == 0x1_0000
    ensures Pow16(5) == 0x10_0000 && Pow16(6) == 0x100_0000 && Pow16(7) == 0x1000_0000
  {
    assert Pow16(2) == 256;
    assert Pow16(4) == 0x1_0000;
    assert Pow16(6) == 0x100_0000;
  }

  lemma Pow16Top()
    ensures Pow16(15) == 0x1000_0000_0000_0000
  {
    Pow16Values();
    assert Pow16(9) == 0x10_0000_0000;
    assert Pow16(11) == 0x1000_0000_0000;
    assert Pow16(13) == 0x10_0000_0000_0000;
  }

  lemma OrderBound(order: nat)
    requires Pow16(order + 1) <= 0x8000_0000_0000_0000
    ensures order <= 14
  {
    if order > 14 {
      Pow16Top();
      assert Pow16(16) == 16 * Pow16(15);
      PowMono(16, order + 1);
    }
  }

  lemma ShiftFits(i: nat, m: nat)
    requires i < 16 && m < 8
    ensures i * Pow16(m) < 0x8000_0000 <==> !(m == 7 && i >= 8)
    ensures i * Pow16(m) < 0x1_0000_0000
  {
    Pow16Values();
    assert m == 0 || m == 1 || m == 2 || m == 3 || m == 4 || m == 5 || m == 6 || m == 7;
    hide Pow16;
  }

  lemma Below(i: nat, m: nat, k: nat, order: nat)
    requires i < 16 && m <= k <= order
    ensures i * Pow16(m) < Pow16(order + 1)
  {
    PowMono(m, order);
    assert Pow16(order + 1) == 16 * Pow16(order);
    hide Pow16;
    Scale(i, Pow16(m));
  }

  lemma Scale(i: nat, a: nat)
    requires i <= 15
    ensures i * a <= 15 * a
  {
  }

  /** The range of a whole cache leaves out just the slots whose shift does not fit in 31 bits. */
  lemma LooksIff(i: nat, k: nat, order: nat, end: nat)
    requires i < 16 && k <= order && Pow16(order + 1) <= end <= 0x8000_0000_0000_0000
    ensures Looks(i, k, end) <==> !(k % 8 == 7 && i >= 8)
  {
    OrderBound(order);
    ShiftFits(i, k % 8);
    Below(i, k % 8, k, order);
    Pow16Top();
    PowMono(k, 15);
    hide Pow16;
  }

  /** So every slot of a cache is looked at exactly when its order is at most 6. */
  lemma LooksAll(order: nat, end: nat)
    requires Pow16(order + 1) <= end <= 0x8000_0000_0000_0000
    ensures order <= 6 <==> forall i: nat, k: nat :: i < 16 && k <= order ==> Looks(i, k, end)
  {
    forall i: nat, k: nat | i < 16 && k <= order
      ensures Looks(i, k, end) <==> !(k % 8 == 7 && i >= 8)
    {
      LooksIff(i, k, order, end);
    }
    if order >= 7 {
      assert !Looks(8, 7, end);
    }
  }

  // ----- what the walk does -----

  /** A visit of a page by the slot that holds it, or the freeing of a node. */
  datatype Event = Visit(node: Id, slot: nat) | FreeNode(node: Id)

  /** What the rest of the walk does below the node at path `p`, from slot `i` on. */
  ghost function Events(nodes: Nodes, l: Layout, order: nat, end: nat, free: bool, p: seq<nat>, i: nat): seq<Event>
    requires p in l.at && |p| <= order && i <= 16
    decreases order - |p|, 16 - i
  {
    if i == 16 then (if free then [FreeNode(l.at[p])] else [])
    else
      (if !Looks(i, order - |p|, end) || SlotAt(nodes, l, p, i) == NIL then []
       else if |p| == order then [Visit(l.at[p], i)]
       else if p + [i] in l.at then Events(nodes, l, order, end, free, p + [i], 0)
       else [])
      + Events(nodes, l, order, end, free, p, i + 1)
  }

  /** How many turns of the loop that takes. */
  ghost function Turns(nodes: Nodes, l: Layout, order: nat, end: nat, p: seq<nat>, i: nat): nat
    requires p in l.at && |p| <= order && i <= 16
    decreases order - |p|, 16 - i
  {
    if i == 16 then 1
    else
      1 + Turns(nodes, l, order, end, p, i + 1)
      + (if |p| < order && p + [i] in l.at && Looks(i, order - |p|, end) && SlotAt(nodes, l, p, i) != NIL
         then Turns(nodes, l, order, end, p + [i], 0) else 0)
  }

  datatype Frame = Frame(node: Id, slot: nat, level: nat)

  /** The frames of the stack stand for nodes of the tree, one on each level. */
  ghost predicate Stacked(l: Layout, order: nat, frames: seq<Frame>, paths: seq<seq<nat>>) {
    && |paths| == |frames|
    && forall k :: 0 <= k < |frames| ==>
         && |paths[k]| == k <= order && paths[k] in l.at && l.at[paths[k]] == frames[k].node
         && frames[k].level == k && frames[k].slot <= 16
  }

  /** What is left to do, from the top of the stack down. */
  ghost function Pending(nodes: Nodes, l: Layout, order: nat, end: nat, free: bool, frames: seq<Frame>,
                         paths: seq<seq<nat>>): seq<Event>
    requires Stacked(l, order, frames, paths)
  {
    if frames == [] then []
    else
      var top := |frames| - 1;
      Events(nodes, l, order, end, free, paths[top], frames[top].slot)
      + Pending(nodes, l, order, end, free, frames[..top], paths[..top])
  }

  ghost function Left(nodes: Nodes, l: Layout, order: nat, end: nat, frames: seq<Frame>, paths: seq<seq<nat>>): nat
    requires Stacked(l, order, frames, paths)
  {
    if frames == [] then 0
    else
      var top := |frames| - 1;
      Turns(nodes, l, order, end, paths[top], frames[top].slot)
      + Left(nodes, l, order, end, frames[..top], paths[..top])
  }

  /** A longer stack. */
  lemma Pushed(nodes: Nodes, l: Layout, order: nat, end: nat, free: bool, frames: seq<Frame>, paths: seq<seq<nat>>,
               f: Frame, p: seq<nat>)
    requires Stacked(l, order, frames, paths) && |p| == f.level == |frames| <= order && f.slot <= 16
    requires p in l.at && l.at[p] == f.node
    ensures Stacked(l, order, frames + [f], paths + [p])
    ensures Pending(nodes, l, order, end, free, frames + [f], paths + [p]) ==
      Events(nodes, l, order, end, free, p, f.slot) + Pending(nodes, l, order, end, free, frames, paths)
    ensures Left(nodes, l, order, end, frames + [f], paths + [p]) ==
      Turns(nodes, l, order, end, p, f.slot) + Left(nodes, l, order, end, frames, paths)
  {
    assert (frames + [f])[..|frames|] == frames && (paths + [p])[..|paths|] == paths;
  }

  /** What one turn of the loop makes of the frame on top of the stack, and what it does. */
  function Turned(nodes: Nodes, order: nat, end: nat, free: bool, f: Frame): (seq<Frame>, seq<Event>)
    requires f.level <= order && f.node in nodes && |nodes[f.node]| == 16
  {
    if f.slot >= 16 then ([], if free then [FreeNode(f.node)] else [])
    else
      var next := Frame(f.node, f.slot + 1, f.level);
      var child := nodes[f.node][f.slot];
      if !Looks(f.slot, order - f.level, end) || child == NIL then ([next], [])
      else if f.level < order then ([next, Frame(child, 0, f.level + 1)], [])
      else ([next], [Visit(f.node, f.slot)])
  }

  ghost function TurnedPaths(p: seq<nat>, i: nat, n: nat): seq<seq<nat>> {
    if n == 0 then [] else if n == 1 then [p] else [p, p + [i]]
  }

  /** What a walk does from a slot on is what it does at the slot and then from the next. */
  lemma EventsAt(nodes: Nodes, root: Id, l: Layout, order: nat, end: nat, free: bool, p: seq<nat>, i: nat)
    requires Shape(nodes, root, order, l) && p in l.at && i < 16
    ensures l.at[p] in nodes && |nodes[l.at[p]]| == 16 && |p| <= order
    ensures
      var child := nodes[l.at[p]][i];
      var rest := Events(nodes, l, order, end, free, p, i + 1);
      var left := Turns(nodes, l, order, end, p, i + 1);
      if !Looks(i, order - |p|, end) || child == NIL then
        && Events(nodes, l, order, end, free, p, i) == rest
        && Turns(nodes, l, order, end, p, i) == 1 + left
      else if |p| == order then
        && Events(nodes, l, order, end, free, p, i) == [Visit(l.at[p], i)] + rest
        && Turns(nodes, l, order, end, p, i) == 1 + left
      else
        && p + [i] in l.at && l.at[p + [i]] == child
        && Events(nodes, l, order, end, free, p, i) == Events(nodes, l, order, end, free, p + [i], 0) + rest
        && Turns(nodes, l, order, end, p, i) == 1 + left + Turns(nodes, l, order, end, p + [i], 0)
  {
    assert Placed(nodes, l, order, p);
    assert |p| < order ==> Leads(nodes, l, p, i);
    hide Shape, Looks;
  }

  lemma TopFrame(nodes: Nodes, root: Id, l: Layout, order: nat, rest: seq<Frame>, below: seq<seq<nat>>, f: Frame,
                 p: seq<nat>)
    requires Shape(nodes, root, order, l)
    requires Stacked(l, order, rest, below) && Stacked(l, order, rest + [f], below + [p])
    ensures p in l.at && l.at[p] == f.node && |p| == f.level == |rest| <= order && f.slot <= 16
    ensures f.node in nodes && |nodes[f.node]| == 16
  {
    assert (rest + [f])[|rest|] == f && (below + [p])[|rest|] == p;
    assert Placed(nodes, l, order, p);
  }

  lemma TurnStep(nodes: Nodes, root: Id, l: Layout, order: nat, end: nat, free: bool, rest: seq<Frame>,
                 below: seq<seq<nat>>, f: Frame, p: seq<nat>)
    requires Shape(nodes, root, order, l)
    requires Stacked(l, order, rest, below) && Stacked(l, order, rest + [f], below + [p])
    ensures f.node in nodes && |nodes[f.node]| == 16 && f.level <= order
    ensures
      var (more, done) := Turned(nodes, order, end, free, f);
      var paths := TurnedPaths(p, f.slot, |more|);
      && Stacked(l, order, rest + more, below + paths)
      && Pending(nodes, l, order, end, free, rest + [f], below + [p]) ==
           done + Pending(nodes, l, order, end, free, rest + more, below + paths)
      && Left(nodes, l, order, end, rest + more, below + paths) < Left(nodes, l, order, end, rest + [f], below + [p])
  {
    hide Shape, Looks, Pending, Left, Stacked, Placed;
    TopFrame(nodes, root, l, order, rest, below, f, p);
    Pushed(nodes, l, order, end, free, rest, below, f, p);
    if f.slot == 16 {
      assert rest + [] == rest && below + [] == below;
    } else {
      SlotStep(nodes, root, l, order, end, free, rest, below, f, p);
    }
  }

  lemma SlotStep(nodes: Nodes, root: Id, l: Layout, order: nat, end: nat, free: bool, rest: seq<Frame>,
                 below: seq<seq<nat>>, f: Frame, p: seq<nat>)
    requires Shape(nodes, root, order, l) && Stacked(l, order, rest, below) && |rest| == |p| == f.level <= order
    requires p in l.at && l.at[p] == f.node && f.slot < 16
    requires f.node in nodes && |nodes[f.node]| == 16
    ensures
      var (more, done) := Turned(nodes, order, end, free, f);
      var paths := TurnedPaths(p, f.slot, |more|);
      && Stacked(l, order, rest + more, below + paths)
      && Events(nodes, l, order, end, free, p, f.slot) + Pending(nodes, l, order, end, free, rest, below) ==
           done + Pending(nodes, l, order, end, free, rest + more, below + paths)
      && Left(nodes, l, order, end, rest + more, below + paths) <
           Turns(nodes, l, order, end, p, f.slot) + Left(nodes, l, order, end, rest, below)
  {
    hide Shape, Looks, Pending, Left, Stacked, Events, Turns;
    EventsAt(nodes, root, l, order, end, free, p, f.slot);
    var g := Frame(f.node, f.slot + 1, f.level);
    Pushed(nodes, l, order, end, free, rest, below, g, p);
    var child := nodes[f.node][f.slot];
    if Looks(f.slot, order - f.level, end) && child != NIL && f.level < order {
      var h, q := Frame(child, 0, f.level + 1), p + [f.slot];
      StackedLength(l, order, rest + [g], below + [p]);
      Pushed(nodes, l, order, end, free, rest + [g], below + [p], h, q);
      assert rest + [g] + [h] == rest + [g, h] && below + [p] + [q] == below + [p, q];
    }
  }

  lemma StackedLength(l: Layout, order: nat, frames: seq<Frame>, paths: seq<seq<nat>>)
    requires Stacked(l, order, frames, paths)
    ensures |frames| == |paths| <= order + 1
  {
    if frames != [] {
      assert |paths[|frames| - 1]| == |frames| - 1 <= order;
    }
  }

  lemma RootFrame(nodes: Nodes, root: Id, l: Layout, order: nat, end: nat, free: bool)
    requires Shape(nodes, root, order, l)
    ensures [] in l.at && Stacked(l, order, [Frame(root, 0, 0)], [[]])
    ensures Pending(nodes, l, order, end, free, [Frame(root, 0, 0)], [[]]) == Events(nodes, l, order, end, free, [], 0)
  {
    Pushed(nodes, l, order, end, free, [], [], Frame(root, 0, 0), []);
    assert [] + [Frame(root, 0, 0)] == [Frame(root, 0, 0)];
    var none: seq<seq<nat>> := [];
    assert none + [[]] == [[]];
  }

  lemma SplitTop(l: Layout, order: nat, frames: seq<Frame>, paths: seq<seq<nat>>)
    returns (rest: seq<Frame>, below: seq<seq<nat>>, p: seq<nat>)
    requires Stacked(l, order, frames, paths) && frames != []
    ensures rest == frames[..|frames| - 1] && frames == rest + [frames[|frames| - 1]] && paths == below + [p]
    ensures Stacked(l, order, rest, below) && frames[|frames| - 1].level == |frames| - 1
  {
    var top := |frames| - 1;
    rest, below, p := frames[..top], paths[..top], paths[top];
  }

  const MAX_STACK: nat := 64

  /** One turn of the loop. */
  method Turn(stack: array<Frame>, top0: nat, nodes: Nodes, order: nat, end: nat, free: bool, log0: seq<Event>)
    returns (top: nat, log: seq<Event>)
    requires 0 < top0 <= stack.Length && stack[top0 - 1].level <= order
    requires stack[top0 - 1].level < order ==> top0 < stack.Length
    requires stack[top0 - 1].node in nodes && |nodes[stack[top0 - 1].node]| == 16
    modifies stack
    ensures top <= stack.Length
    ensures stack[..top] == old(stack[..top0 - 1]) + Turned(nodes, order, end, free, old(stack[top0 - 1])).0
    ensures log == log0 + Turned(nodes, order, end, free, old(stack[top0 - 1])).1
  {
    hide Looks;
    top, log := top0, log0;
    var f := stack[top - 1];
    if f.slot >= 16 {
      if free {
        log := log + [FreeNode(f.node)];
      }
      top := top - 1;
      return;
    }
    stack[top - 1] := Frame(f.node, f.slot + 1, f.level);
    if Looks(f.slot, order - f.level, end) {
      if nodes[f.node][f.slot] != NIL {
        if f.level < order {
          stack[top] := Frame(nodes[f.node][f.slot], 0, f.level + 1);
          top := top + 1;
        } else {
          log := log + [Visit(f.node, f.slot)];
        }
      }
    }
  }

  /** internal_visit_pages_iter over the whole range.  The stack never holds more than one frame a
      level, `deepest` at its height, and the loop ends having done what the recursion over the tree
      does. */
  method VisitPages(nodes: Nodes, root: Id, order: nat, end: nat, free: bool, ghost l: Layout)
    returns (log: seq<Event>, ghost deepest: nat)
    requires Shape(nodes, root, order, l) && order < MAX_STACK
    ensures deepest <= order + 1
    ensures [] in l.at && log == Events(nodes, l, order, end, free, [], 0)
  {
    hide Shape, Looks, Pending, Left, Stacked, Placed, Events, Turns, Turned, TurnedPaths;
    RootFrame(nodes, root, l, order, end, free);
    var stack := new Frame[MAX_STACK](i => Frame(NIL, 0, 0));
    stack[0] := Frame(root, 0, 0);
    var top: nat := 1;
    log, deepest := [], 1;
    ghost var paths: seq<seq<nat>> := [[]];
    assert stack[..1] == [Frame(root, 0, 0)];
    while top > 0
      invariant top <= deepest <= order + 1 && Stacked(l, order, stack[..top], paths)
      invariant [] in l.at
      invariant log + Pending(nodes, l, order, end, free, stack[..top], paths) ==
        Events(nodes, l, order, end, free, [], 0)
      decreases Left(nodes, l, order, end, stack[..top], paths)
    {
      var f := stack[top - 1];
      ghost var rest, below, p := SplitTop(l, order, stack[..top], paths);
      assert stack[..top] == rest + [f] && stack[..top - 1] == rest;
      TurnStep(nodes, root, l, order, end, free, rest, below, f, p);
      ghost var (more, done) := Turned(nodes, order, end, free, f);
      top, log := Turn(stack, top, nodes, order, end, free, log);
      paths := below + TurnedPaths(p, f.slot, |more|);
      StackedLength(l, order, stack[..top], paths);
      deepest := Max(deepest, top);
    }
    NoFrames(nodes, l, order, end, free, stack[..top], paths);
  }

  lemma NoFrames(nodes: Nodes, l: Layout, order: nat, end: nat, free: bool, frames: seq<Frame>, paths: seq<seq<nat>>)
    requires frames == [] && Stacked(l, order, frames, paths)
    ensures Pending(nodes, l, order, end, free, frames, paths) == []
  {
  }

  // ----- every page and every node once -----

  ghost predicate Once(es: seq<Event>) { forall a, b :: 0 <= a < b < |es| ==> es[a] != es[b] }

  /** The way from the root to what an event is about. */
  ghost function WayTo(l: Layout, e: Event): seq<nat>
    requires e.node in l.path
  { if e.FreeNode? then l.path[e.node] else l.path[e.node] + [e.slot] }

  /** A node of the tree, or a slot of a leaf that holds a page. */
  ghost predicate Resident(nodes: Nodes, l: Layout, order: nat, e: Event) {
    && e.node in nodes && e.node in l.path && l.path[e.node] in l.at && l.at[l.path[e.node]] == e.node
    && (e.Visit? ==> |l.path[e.node]| == order && e.slot < 16 && |nodes[e.node]| == 16 && nodes[e.node][e.slot] != NIL)
  }

  /** The walk looks at every slot on the way, from the `from`-th on. */
  ghost predicate Seen(order: nat, end: nat, way: seq<nat>, from: nat) {
    forall j :: from <= j < |way| && j <= order ==> Looks(way[j], order - j, end)
  }

  /** What the walk below `p` from slot `i` on comes to. */
  ghost predicate Due(nodes: Nodes, l: Layout, order: nat, end: nat, p: seq<nat>, i: nat, e: Event) {
    && Resident(nodes, l, order, e)
    && p <= WayTo(l, e) && (|WayTo(l, e)| > |p| ==> WayTo(l, e)[|p|] >= i)
    && Seen(order, end, WayTo(l, e), |p|)
  }

  lemma OnceJoin(a: seq<Event>, b: seq<Event>)
    requires Once(a) && Once(b) && forall e :: e in a ==> e !in b
    ensures Once(a + b)
  {
    var c := a + b;
    forall i, j | 0 <= i < j < |c|
      ensures c[i] != c[j]
    {
      if i < |a| <= j {
        assert c[i] in a && c[j] in b;
      }
    }
  }

  lemma WayDigits(nodes: Nodes, root: Id, l: Layout, order: nat, e: Event)
    requires Shape(nodes, root, order, l) && Resident(nodes, l, order, e)
    ensures forall j :: 0 <= j < |WayTo(l, e)| ==> WayTo(l, e)[j] < 16
    ensures e.FreeNode? ==> |WayTo(l, e)| <= order
  {
    assert Placed(nodes, l, order, l.path[e.node]);
  }

  /** Only the node itself is left after the last slot. */
  lemma DueLast(nodes: Nodes, root: Id, l: Layout, order: nat, end: nat, p: seq<nat>, e: Event)
    requires Shape(nodes, root, order, l) && p in l.at
    ensures Due(nodes, l, order, end, p, 16, e) <==> e == FreeNode(l.at[p])
  {
    assert Placed(nodes, l, order, p);
    if Due(nodes, l, order, end, p, 16, e) {
      WayDigits(nodes, root, l, order, e);
      hide Shape, Looks;
      var way := WayTo(l, e);
      assert |way| == |p| && way == p;
    } else {
      hide Shape, Looks;
    }
  }

  /** What is due at slot `i` itself, and what from the next on. */
  lemma DueSlot(nodes: Nodes, l: Layout, order: nat, end: nat, p: seq<nat>, i: nat, e: Event)
    requires p in l.at && |p| <= order && i < 16
    ensures Due(nodes, l, order, end, p, i, e) <==>
      || Due(nodes, l, order, end, p, i + 1, e)
      || (Looks(i, order - |p|, end) && Due(nodes, l, order, end, p + [i], 0, e))
    ensures !(Due(nodes, l, order, end, p, i + 1, e) && Due(nodes, l, order, end, p + [i], 0, e))
  {
    hide Looks;
    if Resident(nodes, l, order, e) {
      hide Resident;
      var way := WayTo(l, e);
      assert p + [i] <= way ==> way[|p|] == i;
      assert |way| > |p| && p <= way && way[|p|] == i ==> p + [i] <= way;
    }
  }

  lemma DueInner(nodes: Nodes, root: Id, l: Layout, order: nat, end: nat, p: seq<nat>, i: nat, e: Event)
    requires Shape(nodes, root, order, l) && p in l.at && |p| < order && i < 16
    requires Due(nodes, l, order, end, p + [i], 0, e)
    ensures p + [i] in l.at
  {
    var q := l.path[e.node];
    assert p + [i] <= q;
    assert q[..|p| + 1] == p + [i];
    PrefixIn(nodes, root, order, l, q, |p| + 1);
  }

  lemma DueLeaf(nodes: Nodes, root: Id, l: Layout, order: nat, end: nat, p: seq<nat>, i: nat, e: Event)
    requires Shape(nodes, root, order, l) && p in l.at && |p| == order && i < 16
    requires l.at[p] in nodes && |nodes[l.at[p]]| == 16
    ensures Due(nodes, l, order, end, p + [i], 0, e) <==> e == Visit(l.at[p], i) && nodes[l.at[p]][i] != NIL
  {
    assert Placed(nodes, l, order, p);
    if Resident(nodes, l, order, e) {
      assert Placed(nodes, l, order, l.path[e.node]);
      var way := WayTo(l, e);
      assert |way| == order + 1 && p + [i] <= way ==> way == p + [i];
      assert way == p + [i] ==> l.path[e.node] == way[..order] == p;
    }
  }

  /** The walk that frees does each thing that is due, and does it once. */
  lemma {:induction false} EventsOnce(nodes: Nodes, root: Id, l: Layout, order: nat, end: nat, p: seq<nat>, i: nat)
    requires Shape(nodes, root, order, l) && p in l.at && |p| <= order && i <= 16
    ensures Once(Events(nodes, l, order, end, true, p, i))
    ensures forall e :: e in Events(nodes, l, order, end, true, p, i) <==> Due(nodes, l, order, end, p, i, e)
    decreases order - |p|, 16 - i
  {
    if i == 16 {
      forall e {
        DueLast(nodes, root, l, order, end, p, e);
      }
    } else {
      EventsOnce(nodes, root, l, order, end, p, i + 1);
      EventsAt(nodes, root, l, order, end, true, p, i);
      var rest := Events(nodes, l, order, end, true, p, i + 1);
      var here := HereOnce(nodes, root, l, order, end, p, i);
      hide Shape, Looks, Due, Events, Once;
      forall e
        ensures Due(nodes, l, order, end, p, i, e) <==> e in here || e in rest
        ensures e in here ==> e !in rest
      {
        DueSlot(nodes, l, order, end, p, i, e);
      }
      OnceJoin(here, rest);
    }
  }

  lemma HereOnce(nodes: Nodes, root: Id, l: Layout, order: nat, end: nat, p: seq<nat>, i: nat)
    returns (here: seq<Event>)
    requires Shape(nodes, root, order, l) && p in l.at && |p| <= order && i < 16
    ensures Events(nodes, l, order, end, true, p, i) == here + Events(nodes, l, order, end, true, p, i + 1)
    ensures Once(here)
    ensures forall e :: e in here <==> Looks(i, order - |p|, end) && Due(nodes, l, order, end, p + [i], 0, e)
    decreases order - |p|, 16 - i, 0
  {
    EventsAt(nodes, root, l, order, end, true, p, i);
    hide Looks, Events;
    var child := nodes[l.at[p]][i];
    if |p| == order {
      forall e {
        DueLeaf(nodes, root, l, order, end, p, i, e);
      }
      hide Shape, Due;
      here := if Looks(i, order - |p|, end) && child != NIL then [Visit(l.at[p], i)] else [];
    } else if Looks(i, order - |p|, end) && child != NIL {
      EventsOnce(nodes, root, l, order, end, p + [i], 0);
      here := Events(nodes, l, order, end, true, p + [i], 0);
    } else {
      assert Leads(nodes, l, p, i);
      here := [];
      forall e | Due(nodes, l, order, end, p + [i], 0, e)
        ensures !Looks(i, order - |p|, end)
      {
        DueInner(nodes, root, l, order, end, p, i, e);
        assert Placed(nodes, l, order, p + [i]);
      }
    }
  }

  /** No digit that is looked at seven levels above a multiple of eight is 8 or more. */
  ghost predicate Fits(order: nat, way: seq<nat>) {
    forall j :: 0 <= j < |way| && j <= order && (order - j) % 8 == 7 ==> way[j] < 8
  }

  lemma SeenIff(order: nat, end: nat, way: seq<nat>)
    requires Pow16(order + 1) <= end <= 0x8000_0000_0000_0000 && forall j :: 0 <= j < |way| ==> way[j] < 16
    ensures Seen(order, end, way, 0) <==> Fits(order, way)
  {
    hide Looks, Pow16;
    forall j | 0 <= j < |way| && j <= order
      ensures Looks(way[j], order - j, end) <==> !((order - j) % 8 == 7 && way[j] >= 8)
    {
      LooksIff(way[j], order - j, order, end);
    }
  }

  /** The slot of a page. */
  ghost function VisitOf(order: nat, l: Layout, n: nat): Event
    requires Digits(n, order + 1)[..order] in l.at
  { Visit(l.at[Digits(n, order + 1)[..order]], Digits(n, order + 1)[order]) }

  lemma PageAt(nodes: Nodes, root: Id, l: Layout, order: nat, n: nat)
    requires Shape(nodes, root, order, l)
    ensures n in Pages(nodes, order, l) ==>
      && Digits(n, order + 1)[..order] in l.at && Resident(nodes, l, order, VisitOf(order, l, n))
      && VisitOf(order, l, n).node in l.path && WayTo(l, VisitOf(order, l, n)) == Digits(n, order + 1)
  {
    hide Shape, Pages, Digits, Value;
    GetValue(nodes, order, l, n);
    LeafValue(nodes, root, order, l, n);
    var ds := Digits(n, order + 1);
    assert ds == ds[..order] + [ds[order]];
  }

  lemma NodeAt(nodes: Nodes, root: Id, l: Layout, order: nat, x: Id)
    requires Shape(nodes, root, order, l) && x in nodes
    ensures x in l.path && Resident(nodes, l, order, FreeNode(x))
  {
  }

  lemma FitsAll(order: nat, way: seq<nat>)
    requires order <= 6
    ensures Fits(order, way)
  {
  }

  /** Freeing a cache frees a node, and drops a page, exactly when the digits on the way fit; each
      at most once, and nothing else. */
  lemma FreeExact(nodes: Nodes, root: Id, l: Layout, order: nat, end: nat)
    requires Shape(nodes, root, order, l) && Pow16(order + 1) <= end <= 0x8000_0000_0000_0000
    ensures [] in l.at && Once(Events(nodes, l, order, end, true, [], 0))
    ensures forall e :: e in Events(nodes, l, order, end, true, [], 0) <==>
      Resident(nodes, l, order, e) && Fits(order, WayTo(l, e))
  {
    EventsOnce(nodes, root, l, order, end, [], 0);
    hide Events, Once, Looks;
    forall e
      ensures Due(nodes, l, order, end, [], 0, e) <==> Resident(nodes, l, order, e) && Fits(order, WayTo(l, e))
    {
      if Resident(nodes, l, order, e) {
        WayDigits(nodes, root, l, order, e);
        SeenIff(order, end, WayTo(l, e));
      }
    }
  }

  /** Up to order 6 every node is freed and every page dropped. */
  lemma FreesAll(nodes: Nodes, root: Id, l: Layout, order: nat, end: nat)
    requires Shape(nodes, root, order, l) && Pow16(order + 1) <= end <= 0x8000_0000_0000_0000 && order <= 6
    ensures [] in l.at && Once(Events(nodes, l, order, end, true, [], 0))
    ensures forall x :: x in nodes ==> FreeNode(x) in Events(nodes, l, order, end, true, [], 0)
    ensures forall n :: n in Pages(nodes, order, l) ==>
      Digits(n, order + 1)[..order] in l.at && VisitOf(order, l, n) in Events(nodes, l, order, end, true, [], 0)
  {
    hide Events, Pages, Digits, Once, Shape, Resident, Fits, Pow16, VisitOf;
    FreeExact(nodes, root, l, order, end);
    forall x | x in nodes
      ensures FreeNode(x) in Events(nodes, l, order, end, true, [], 0)
    {
      NodeAt(nodes, root, l, order, x);
      FitsAll(order, WayTo(l, FreeNode(x)));
    }
    forall n | n in Pages(nodes, order, l)
      ensures Digits(n, order + 1)[..order] in l.at && VisitOf(order, l, n) in Events(nodes, l, order, end, true, [], 0)
    {
      PageAt(nodes, root, l, order, n);
      FitsAll(order, WayTo(l, VisitOf(order, l, n)));
    }
  }

  /** A page whose digits do not fit is not dropped. */
  lemma MissesPage(nodes: Nodes, root: Id, l: Layout, order: nat, end: nat, n: nat)
    requires Shape(nodes, root, order, l) && Pow16(order + 1) <= end <= 0x8000_0000_0000_0000
    requires n in Pages(nodes, order, l) && !Fits(order, Digits(n, order + 1))
    ensures Digits(n, order + 1)[..order] in l.at && [] in l.at
    ensures VisitOf(order, l, n) !in Events(nodes, l, order, end, true, [], 0)
  {
    FreeExact(nodes, root, l, order, end);
    PageAt(nodes, root, l, order, n);
  }

  /** pgcache_free once the last reference is gone. */
  method FreeCache(c: PgCache) returns (log: seq<Event>)
    requires c.Valid()
    ensures [] in c.layout.at && log == Events(c.nodes, c.layout, c.order, CapacityOf(c.order, c.pgSize), true, [], 0)
    ensures Once(log)
    ensures forall e :: e in log <==> Resident(c.nodes, c.layout, c.order, e) && Fits(c.order, WayTo(c.layout, e))
  {
    hide Events, Shape, Resident, Fits, Once;
    Roomy(c.order, c.pgSize);
    FreeExact(c.nodes, c.root, c.layout, c.order, CapacityOf(c.order, c.pgSize));
    OrderBound(c.order);
    ghost var deepest;
    log, deepest := VisitPages(c.nodes, c.root, c.order, CapacityOf(c.order, c.pgSize), true, c.layout);
  }

  lemma Roomy(order: nat, pgSize: nat)
    requires pgSize > 0
    ensures Pow16(order + 1) <= CapacityOf(order, pgSize)
  {
    Multiply(1, pgSize, Pow16(order + 1));
  }

  /** A cache of order 7 or more that holds one page, and whose freeing does not drop it. */
  method LeakOnePage(order: nat, pgSize: nat, page: Id) returns (c: PgCache, log: seq<Event>, ghost n: nat)
    requires order >= 7 && PowerOfTwo(pgSize) && CapacityOf(order, pgSize) <= U63 && page != NIL
    ensures c.Valid() && c.order == order && c.Contents() == map[n := page]
    ensures Digits(n, order + 1)[..order] in c.layout.at && VisitOf(order, c.layout, n) !in log
    ensures [] in c.layout.at && log == Events(c.nodes, c.layout, order, CapacityOf(order, pgSize), true, [], 0)
  {
    hide Events, Shape, Resident, Fits, Once, Pages, Digits, Pow16, CapacityOf, PageOf, PowerOfTwo;
    c := new PgCache(order, pgSize);
    var k := MissedNumber(order);
    n := k;
    PageAtOffset(k, pgSize);
    var old_ := c.Insert(k * pgSize, page);
    log := FreeCache(c);
    Roomy(order, pgSize);
    MissesPage(c.nodes, c.root, c.layout, order, CapacityOf(order, pgSize), n);
  }

  lemma PageAtOffset(n: nat, size: nat)
    requires PowerOfTwo(size)
    ensures size > 0 && PageOf(n * size, size) == n
  {
    hide PageOf, PowerOfTwo;
    PowerPositive(size);
    Within(n * size, size, n);
    Within(n * size, size, n + 1);
    assert n * size < (n + 1) * size;
  }

  /** The page number with an 8 seven levels above the leaves and zeros else. */
  method MissedNumber(order: nat) returns (n: nat)
    requires order >= 7
    ensures n < Pow16(order + 1) && !Fits(order, Digits(n, order + 1))
  {
    var digits := seq(order + 1, j => if j == order - 7 then 8 else 0);
    DigitsOfNumber(digits);
    n := Number(digits);
    hide Digits, Number;
    assert digits[order - 7] == 8 && (order - (order - 7)) % 8 == 7;
  }
}
