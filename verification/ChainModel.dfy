/** The list that threads a tree's nodes in order, from its first node to its last. */
module ChainModel {
  import opened Base

  datatype Chain = Chain(first: Id, last: Id, next: map<Id, Id>, prev: map<Id, Id>)

  ghost predicate NoDup(q: seq<Id>) {
    NIL !in q && forall i, j :: 0 <= i < j < |q| ==> q[i] != q[j]
  }

  function Nth(q: seq<Id>, i: int): Id { if 0 <= i < |q| then q[i] else NIL }

  /** Following `next` from `first`, or `prev` from `last`, visits exactly `q`. */
  ghost predicate Linked(ch: Chain, q: seq<Id>) {
    && ch.first == Nth(q, 0) && ch.last == Nth(q, |q| - 1)
    && forall i :: 0 <= i < |q| ==> LinkAt(ch, q, i)
  }

  ghost predicate LinkAt(ch: Chain, q: seq<Id>, i: int)
    requires 0 <= i < |q|
  {
    && q[i] in ch.next && ch.next[q[i]] == Nth(q, i + 1)
    && q[i] in ch.prev && ch.prev[q[i]] == Nth(q, i - 1)
  }

  function InsertAt(q: seq<Id>, k: nat, z: Id): (r: seq<Id>)
    requires k <= |q|
    ensures |r| == |q| + 1
  { q[..k] + [z] + q[k..] }

  function RemoveAt(q: seq<Id>, k: nat): (r: seq<Id>)
    requires k < |q|
    ensures |r| == |q| - 1
  { q[..k] + q[k + 1..] }

  lemma InsertAtNth(q: seq<Id>, k: nat, z: Id, i: int)
    requires k <= |q|
    ensures Nth(InsertAt(q, k, z), i) == if i < k then Nth(q, i) else if i == k then z else Nth(q, i - 1)
  {
  }

  lemma RemoveAtNth(q: seq<Id>, k: nat, i: int)
    requires k < |q|
    ensures Nth(RemoveAt(q, k), i) == if i < k then Nth(q, i) else Nth(q, i + 1)
  {
  }

  lemma NthInjective(q: seq<Id>, i: int, j: int)
    requires NoDup(q) && 0 <= i < |q|
    ensures Nth(q, i) == Nth(q, j) <==> i == j
  {
    assert q[i] in q;
  }

  /** The writes that put `z` between two neighbours, either of which may be missing. */
  function LinkIn(ch: Chain, a: Id, z: Id, b: Id): Chain {
    Chain(if a == NIL then z else ch.first, if b == NIL then z else ch.last,
          (if a == NIL then ch.next else ch.next[a := z])[z := b],
          (if b == NIL then ch.prev else ch.prev[b := z])[z := a])
  }

  lemma LinkedIn(ch: Chain, q: seq<Id>, k: nat, z: Id)
    requires Linked(ch, q) && NoDup(q) && k <= |q| && z != NIL && z !in q
    ensures Linked(LinkIn(ch, Nth(q, k - 1), z, Nth(q, k)), InsertAt(q, k, z))
  {
    hide NoDup, InsertAt, LinkAt;
    var ch', q' := LinkIn(ch, Nth(q, k - 1), z, Nth(q, k)), InsertAt(q, k, z);
    forall i | 0 <= i < |q'|
      ensures LinkAt(ch', q', i)
    {
      LinkedInAt(ch, q, k, z, i);
    }
    InsertAtNth(q, k, z, 0);
    InsertAtNth(q, k, z, |q|);
    EndsNotNil(q, k);
  }

  lemma LinkedInAt(ch: Chain, q: seq<Id>, k: nat, z: Id, i: nat)
    requires Linked(ch, q) && NoDup(q) && k <= |q| && z != NIL && z !in q && i <= |q|
    ensures LinkAt(LinkIn(ch, Nth(q, k - 1), z, Nth(q, k)), InsertAt(q, k, z), i)
  {
    hide NoDup, InsertAt;
    var q' := InsertAt(q, k, z);
    EndsNotNil(q, k);
    InsertAtNth(q, k, z, i);
    InsertAtNth(q, k, z, i + 1);
    InsertAtNth(q, k, z, i - 1);
    if i != k {
      var j := if i < k then i else i - 1;
      assert LinkAt(ch, q, j) && q'[i] == q[j];
      NthInjective(q, j, k);
      NthInjective(q, j, k - 1);
    }
  }

  lemma EndsNotNil(q: seq<Id>, k: nat)
    requires NoDup(q) && k <= |q|
    ensures Nth(q, k - 1) == NIL <==> k == 0
    ensures Nth(q, k) == NIL <==> k == |q|
  {
    assert k > 0 ==> q[k - 1] in q;
    assert k < |q| ==> q[k] in q;
  }

  /** The writes that take `z` out from between its neighbours. */
  function LinkOut(ch: Chain, a: Id, b: Id): Chain {
    Chain(if a == NIL then b else ch.first, if b == NIL then a else ch.last,
          if a == NIL then ch.next else ch.next[a := b],
          if b == NIL then ch.prev else ch.prev[b := a])
  }

  lemma LinkedOut(ch: Chain, q: seq<Id>, k: nat)
    requires Linked(ch, q) && NoDup(q) && k < |q|
    ensures Linked(LinkOut(ch, Nth(q, k - 1), Nth(q, k + 1)), RemoveAt(q, k))
  {
    hide NoDup, RemoveAt, LinkAt;
    var ch', q' := LinkOut(ch, Nth(q, k - 1), Nth(q, k + 1)), RemoveAt(q, k);
    forall i | 0 <= i < |q'|
      ensures LinkAt(ch', q', i)
    {
      LinkedOutAt(ch, q, k, i);
    }
    RemoveAtNth(q, k, 0);
    RemoveAtNth(q, k, |q| - 2);
    EndsNotNil(q, k);
    EndsNotNil(q, k + 1);
  }

  lemma LinkedOutAt(ch: Chain, q: seq<Id>, k: nat, i: nat)
    requires Linked(ch, q) && NoDup(q) && k < |q| && i < |q| - 1
    ensures LinkAt(LinkOut(ch, Nth(q, k - 1), Nth(q, k + 1)), RemoveAt(q, k), i)
  {
    hide NoDup, RemoveAt;
    var q' := RemoveAt(q, k);
    EndsNotNil(q, k);
    EndsNotNil(q, k + 1);
    RemoveAtNth(q, k, i);
    RemoveAtNth(q, k, i + 1);
    RemoveAtNth(q, k, i - 1);
    var j := if i < k then i else i + 1;
    assert LinkAt(ch, q, j) && q'[i] == q[j];
    NthInjective(q, j, k + 1);
    NthInjective(q, j, k - 1);
  }

  lemma ChainEnds(ch: Chain, q: seq<Id>)
    requires Linked(ch, q)
    ensures ch.first == Nth(q, 0) && ch.last == Nth(q, |q| - 1)
  {
  }

  lemma RemovedElements(q: seq<Id>, k: nat)
    requires k < |q| && NoDup(q)
    ensures forall i :: i in RemoveAt(q, k) <==> i in q && i != q[k]
  {
    forall i | i in q && i != q[k]
      ensures i in RemoveAt(q, k)
    {
      var j :| 0 <= j < |q| && q[j] == i;
      assert RemoveAt(q, k)[if j < k then j else j - 1] == i;
    }
  }
}
