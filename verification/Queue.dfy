/** The intrusive list macros of include/kernel/queue.h: what they do to the links, and that
    this is what the sequence operations do. */
module Queue {
  import opened Base
  import opened ChainModel

  /** LIST_ADD. */
  function ListAdd(ch: Chain, el: Id): Chain {
    if ch.first == NIL then Chain(el, el, ch.next[el := NIL], ch.prev[el := NIL])
    else Chain(ch.first, el, ch.next[ch.last := el][el := NIL], ch.prev[el := ch.last])
  }

  /** LIST_ADD_FRONT. */
  function ListAddFront(ch: Chain, el: Id): Chain {
    if ch.first == NIL then Chain(el, el, ch.next[el := NIL], ch.prev[el := NIL])
    else Chain(el, ch.last, ch.next[el := ch.first], ch.prev[ch.first := el][el := NIL])
  }

  /** LIST_REMOVE. */
  function ListRemove(ch: Chain, el: Id): Chain
    requires el in ch.next && el in ch.prev
  {
    var n, p := ch.next[el], ch.prev[el];
    if el == ch.first then
      if el == ch.last then Chain(NIL, NIL, ch.next, ch.prev)
      else Chain(n, ch.last, ch.next[el := NIL], ch.prev[n := NIL])
    else if el == ch.last then Chain(ch.first, p, ch.next[p := NIL], ch.prev[el := NIL])
    else Chain(ch.first, ch.last, ch.next[p := n][el := NIL], ch.prev[n := p][el := NIL])
  }

  lemma AddIsAppend(ch: Chain, q: seq<Id>, el: Id)
    requires Linked(ch, q) && NoDup(q) && el != NIL && el !in q
    ensures Linked(ListAdd(ch, el), q + [el]) && NoDup(q + [el])
    ensures forall i :: i !in q && i != el ==> SameLinks(ch, ListAdd(ch, el), i)
  {
    LinkedIn(ch, q, |q|, el);
    assert InsertAt(q, |q|, el) == q + [el];
    assert q != [] ==> q[0] in q && q[|q| - 1] in q;
  }

  lemma AddFrontIsPrepend(ch: Chain, q: seq<Id>, el: Id)
    requires Linked(ch, q) && NoDup(q) && el != NIL && el !in q
    ensures Linked(ListAddFront(ch, el), [el] + q) && NoDup([el] + q)
    ensures forall i :: i !in q && i != el ==> SameLinks(ch, ListAddFront(ch, el), i)
  {
    LinkedIn(ch, q, 0, el);
    assert InsertAt(q, 0, el) == [el] + q;
    assert q != [] ==> q[0] in q && q[|q| - 1] in q;
  }

  /** Elements outside the list keep their links. */
  ghost predicate SameLinks(ch: Chain, ch': Chain, i: Id) {
    && (i in ch.next ==> i in ch'.next && ch'.next[i] == ch.next[i])
    && (i in ch.prev ==> i in ch'.prev && ch'.prev[i] == ch.prev[i])
  }

  /** The links of an element outside the list do not matter to the list. */
  ghost predicate SameBut(ch: Chain, ch': Chain, z: Id) {
    && ch'.first == ch.first && ch'.last == ch.last
    && forall i :: i != z ==> SameLinks(ch, ch', i)
  }

  lemma LinkedBut(ch: Chain, ch': Chain, q: seq<Id>, z: Id)
    requires Linked(ch, q) && z !in q && SameBut(ch, ch', z)
    ensures Linked(ch', q)
  {
    forall i | 0 <= i < |q|
      ensures LinkAt(ch', q, i)
    {
      assert LinkAt(ch, q, i) && q[i] in q && SameLinks(ch, ch', q[i]);
    }
  }

  lemma RemovedNoDup(q: seq<Id>, k: nat)
    requires NoDup(q) && k < |q|
    ensures NoDup(RemoveAt(q, k)) && q[k] !in RemoveAt(q, k)
  {
    var q' := RemoveAt(q, k);
    forall i | 0 <= i < |q'|
      ensures q'[i] == q[if i < k then i else i + 1] && q'[i] in q
    {
    }
  }

  /** A removed element is linked to nothing. */
  lemma RemoveIsRemove(ch: Chain, q: seq<Id>, k: nat)
    requires Linked(ch, q) && NoDup(q) && k < |q|
    ensures q[k] in ch.next && q[k] in ch.prev
    ensures var ch' := ListRemove(ch, q[k]);
      && Linked(ch', RemoveAt(q, k)) && NoDup(RemoveAt(q, k))
      && q[k] in ch'.next && ch'.next[q[k]] == NIL && q[k] in ch'.prev && ch'.prev[q[k]] == NIL
      && forall i :: i !in q ==> SameLinks(ch, ch', i)
  {
    var z, a, b := q[k], Nth(q, k - 1), Nth(q, k + 1);
    assert LinkAt(ch, q, k);
    LinkedOut(ch, q, k);
    RemovedNoDup(q, k);
    NthInjective(q, 0, k);
    NthInjective(q, |q| - 1, k);
    assert k > 0 ==> a in q;
    assert k + 1 < |q| ==> b in q;
    hide RemoveAt, Linked, NoDup;
    LinkedBut(LinkOut(ch, a, b), ListRemove(ch, z), RemoveAt(q, k), z);
  }
}
