/** Whole runs of kmalloc and kfree. */
module HeapRuns {
  import opened Base
  import opened ChainModel
  import opened HeapModel
  import opened Heaps

  /** A request for memory, or the release of what the `of`-th call of the run returned. */
  datatype Op = Alloc(size: nat, alignment: nat) | Free(of: nat)

  ghost predicate Sensible(ops: seq<Op>) {
    forall k :: 0 <= k < |ops| ==> if ops[k].Free? then ops[k].of < k else ops[k].alignment < U64
  }

  /** No alignment is so big that a chunk at the end of the heap would wrap past 64 bits. */
  ghost predicate Modest(ops: seq<Op>, limit: nat) {
    forall k :: 0 <= k < |ops| && ops[k].Alloc? ==> limit + ops[k].alignment + 4 * CHUNK_MAX_SIZE < U64
  }

  /** The memory asked for and not yet given back after the calls that `log` holds the results of. */
  ghost function Asked(ops: seq<Op>, log: seq<nat>): map<nat, nat>
    requires |log| <= |ops| && Sensible(ops)
    decreases |log|
  {
    if log == [] then map[]
    else
      var n := |log| - 1;
      var before := Asked(ops, log[..n]);
      if ops[n].Free? then before - {log[ops[n].of]}
      else if ops[n].size == 0 then before
      else before[log[n] := ops[n].size]
  }

  /** Every block asked for is there, big enough, and nothing else is. */
  ghost predicate Covers(blocks: map<nat, nat>, asked: map<nat, nat>) {
    blocks.Keys == asked.Keys && forall p :: p in asked ==> blocks[p] >= asked[p]
  }

  /** An address that a call got leads to a chunk that is handed out or free. */
  ghost predicate Leads(p: nat, blocks: map<nat, nat>, fl: seq<nat>) {
    p == NIL || p in blocks || (p >= HEADER && p - HEADER in fl)
  }

  ghost predicate Traced(log: seq<nat>, blocks: map<nat, nat>, fl: seq<nat>) {
    forall k :: 0 <= k < |log| ==> Leads(log[k], blocks, fl)
  }

  lemma ChunkOf(mem: map<nat, Cell>, base: nat, limit: nat, last: nat, tiles: seq<nat>, ch: Chain, fl: seq<nat>, p: nat)
    requires HeapOk(mem, base, limit, last, tiles, ch, fl) && Leads(p, Live(mem, tiles), fl) && p != NIL
    ensures p >= HEADER && p - HEADER in tiles && p - HEADER in mem && mem[p - HEADER].Chunk?
  {
  }

  lemma Taken(blocks: map<nat, nat>, after: map<nat, nat>, asked: map<nat, nat>, p: nat, size: nat)
    requires Covers(blocks, asked) && HandsOut(blocks, after, p, size)
    ensures Covers(after, asked[p := size]) && p !in asked
  {
  }

  lemma Given(blocks: map<nat, nat>, asked: map<nat, nat>, p: nat)
    requires Covers(blocks, asked)
    ensures Covers(blocks - {p}, asked - {p})
  {
  }

  /** Memory of different calls does not overlap, and all of it lies in the heap. */
  ghost predicate Disjoint(asked: map<nat, nat>, base: nat, limit: nat) {
    && (forall p :: p in asked ==> base < p && p + asked[p] <= limit)
    && forall p, p' :: p in asked && p' in asked && p < p' ==> p + asked[p] < p'
  }

  lemma CoversDisjoint(h: Heap, asked: map<nat, nat>)
    requires h.Valid() && Covers(h.Blocks(), asked)
    ensures Disjoint(asked, h.base, h.limit)
  {
    forall p | p in asked
      ensures h.base < p && p + asked[p] <= h.limit
    {
      LiveInside(h.mem, h.base, h.tiles, p);
    }
    forall p, p' | p in asked && p' in asked && p < p'
      ensures p + asked[p] < p'
    {
      LiveApart(h.mem, h.base, h.tiles, p, p');
    }
  }

  lemma AskedMore(ops: seq<Op>, log: seq<nat>, p: nat)
    requires |log| < |ops| && Sensible(ops)
    ensures Asked(ops, log + [p]) ==
      if ops[|log|].Free? then Asked(ops, log) - {log[ops[|log|].of]}
      else if ops[|log|].size == 0 then Asked(ops, log)
      else Asked(ops, log)[p := ops[|log|].size]
  {
    assert (log + [p])[..|log|] == log;
  }

  ghost predicate Fresh(ops: seq<Op>, log: seq<nat>)
    requires |log| <= |ops| && Sensible(ops)
  {
    forall k :: 0 <= k < |log| && ops[k].Alloc? && ops[k].size > 0 ==>
      Asked(ops, log[..k]).Keys !! {log[k]} && ops[k].alignment > 0 && log[k] % ops[k].alignment == 0
  }

  lemma FreshMore(ops: seq<Op>, log: seq<nat>, p: nat)
    requires |log| < |ops| && Sensible(ops) && Fresh(ops, log)
    requires ops[|log|].Alloc? && ops[|log|].size > 0 ==>
      p !in Asked(ops, log) && ops[|log|].alignment > 0 && p % ops[|log|].alignment == 0
    ensures Fresh(ops, log + [p])
  {
    var more := log + [p];
    forall k | 0 <= k < |more| && ops[k].Alloc? && ops[k].size > 0
      ensures Asked(ops, more[..k]).Keys !! {more[k]} && ops[k].alignment > 0 && more[k] % ops[k].alignment == 0
    {
      assert more[..k] == if k < |log| then log[..k] else log;
    }
  }

  /** At every moment of a run, the memory in use is disjoint. */
  ghost predicate AlwaysDisjoint(ops: seq<Op>, log: seq<nat>, base: nat, limit: nat)
    requires |log| <= |ops| && Sensible(ops)
  {
    forall k :: 0 <= k <= |log| ==> Disjoint(Asked(ops, log[..k]), base, limit)
  }

  lemma AlwaysMore(ops: seq<Op>, log: seq<nat>, p: nat, base: nat, limit: nat)
    requires |log| < |ops| && Sensible(ops) && AlwaysDisjoint(ops, log, base, limit)
    requires Disjoint(Asked(ops, log + [p]), base, limit)
    ensures AlwaysDisjoint(ops, log + [p], base, limit)
  {
    var more := log + [p];
    forall k | 0 <= k <= |more|
      ensures Disjoint(Asked(ops, more[..k]), base, limit)
    {
      assert more[..k] == if k <= |log| then log[..k] else more;
    }
  }

  lemma Start(ops: seq<Op>, mem: map<nat, Cell>, fl: seq<nat>, base: nat, limit: nat)
    requires Sensible(ops)
    ensures Covers(Live(mem, []), Asked(ops, [])) && Fresh(ops, []) && Traced([], Live(mem, []), fl)
    ensures AlwaysDisjoint(ops, [], base, limit)
  {
    NoneAsked(ops);
    NoneLive(mem);
    hide Asked, Live;
  }

  lemma NoneAsked(ops: seq<Op>)
    requires Sensible(ops)
    ensures Asked(ops, []) == map[] && Asked(ops, [][..0]) == map[]
  {
    var none: seq<nat> := [];
    assert none[..0] == [];
  }

  lemma NoneLive(mem: map<nat, Cell>)
    ensures Live(mem, []) == map[]
  {
    assert LivePtrs(mem, []) == {};
  }

  lemma StillLeads(q: nat, blocks: map<nat, nat>, fl: seq<nat>, p: nat)
    requires p >= HEADER && Leads(q, blocks, fl)
    ensures Leads(q, blocks - {p}, [p - HEADER] + fl)
  {
  }

  /** Any run on a new heap, with blocks freed once, twice or not at all.  Up to the first panic, or
      the first address that wraps, every block handed out is aligned and apart from the memory still
      in use; and what is in use at the end is what was asked for and not given back. */
  method Run(h: Heap, ops: seq<Op>) returns (log: seq<nat>, panic: bool, astray: bool)
    requires h.Valid() && h.tiles == [] && h.fl == [] && Sensible(ops)
    modifies h
    ensures |log| <= |ops| && (!panic && !astray ==> |log| == |ops| && h.Valid())
    ensures Fresh(ops, log)
    ensures AlwaysDisjoint(ops, log, h.base, h.limit)
    ensures !panic && !astray ==> Covers(h.Blocks(), Asked(ops, log))
    ensures Modest(ops, h.limit) ==> !astray
  {
    Start(ops, h.mem, h.fl, h.base, h.limit);
    hide HeapOk, Live, Covers, Traced, Asked, Fresh, Disjoint, AlwaysDisjoint;
    log, panic, astray := [], false, false;
    while |log| < |ops|
      invariant |log| <= |ops| && h.Valid() && !panic && !astray
      invariant Covers(h.Blocks(), Asked(ops, log)) && Traced(log, h.Blocks(), h.fl)
      invariant Fresh(ops, log) && AlwaysDisjoint(ops, log, h.base, h.limit)
    {
      var p;
      p, panic, astray := Call(h, ops, log);
      if panic || astray {
        return;
      }
      AlwaysMore(ops, log, p, h.base, h.limit);
      log := log + [p];
    }
  }

  method Obtain(h: Heap, size: nat, alignment: nat, ghost asked: map<nat, nat>)
    returns (p: nat, panic: bool, astray: bool)
    requires h.Valid() && Covers(h.Blocks(), asked) && alignment < U64
    modifies h
    ensures !panic && !astray ==> h.Valid() && Leads(p, h.Blocks(), h.fl)
    ensures !panic && !astray && size == 0 ==> Covers(h.Blocks(), asked)
    ensures !panic && !astray && size > 0 ==>
      p !in asked && alignment > 0 && p % alignment == 0 && Covers(h.Blocks(), asked[p := size])
    ensures !panic && !astray ==> forall q :: Leads(q, old(h.Blocks()), old(h.fl)) ==> Leads(q, h.Blocks(), h.fl)
    ensures h.limit + alignment + 4 * CHUNK_MAX_SIZE < U64 ==> !astray
  {
    hide HeapOk, Live, PowerOfTwo, Covers, SomeServes, Smallest, Rounded, AlignUp, End, NewTiles;
    ghost var k;
    PowerPositive(alignment);
    if alignment > 0 {
      NoWrap(h, alignment);
    }
    RoundedOk(size);
    p, panic, astray, k := h.Kmalloc(size, alignment);
    if !panic && !astray && size > 0 {
      Taken(old(h.Blocks()), h.Blocks(), asked, p, size);
    }
  }

  lemma NoWrap(h: Heap, alignment: nat)
    requires h.Valid() && alignment > 0
    ensures h.EndAligned(alignment) < h.limit + HEADER + alignment
  {
    AlignUpLeast(End(h.mem, h.base, h.tiles) + HEADER, alignment, 0);
  }

  method Release(h: Heap, p: nat) returns (panic: bool)
    requires h.Valid() && Leads(p, h.Blocks(), h.fl)
    modifies h
    ensures !panic && h.Valid() && h.Blocks() == old(h.Blocks()) - {p}
    ensures forall q :: Leads(q, old(h.Blocks()), old(h.fl)) ==> Leads(q, h.Blocks(), h.fl)
  {
    if p != NIL {
      ChunkOf(h.mem, h.base, h.limit, h.last, h.tiles, h.ch, h.fl, p);
    }
    hide HeapOk, Live, Leads;
    var astray;
    panic, astray := h.Kfree(p, 0);
    if p in old(h.Blocks()) {
      forall q | Leads(q, old(h.Blocks()), old(h.fl))
        ensures Leads(q, h.Blocks(), h.fl)
      {
        StillLeads(q, old(h.Blocks()), old(h.fl), p);
      }
    }
  }

  /** One call of a run. */
  method Call(h: Heap, ops: seq<Op>, log: seq<nat>) returns (p: nat, panic: bool, astray: bool)
    requires |log| < |ops| && h.Valid() && Sensible(ops) && Fresh(ops, log)
    requires Covers(h.Blocks(), Asked(ops, log)) && Traced(log, h.Blocks(), h.fl)
    modifies h
    ensures !panic && !astray ==>
      && h.Valid() && Covers(h.Blocks(), Asked(ops, log + [p])) && Traced(log + [p], h.Blocks(), h.fl)
      && Fresh(ops, log + [p]) && Disjoint(Asked(ops, log + [p]), h.base, h.limit)
    ensures Modest(ops, h.limit) ==> !astray
  {
    hide HeapOk, Live, Covers, Asked, Fresh, Disjoint, HandsOut;
    var op := ops[|log|];
    match op {
      case Free(of) =>
        p, astray := NIL, false;
        panic := Release(h, log[of]);
        Given(old(h.Blocks()), Asked(ops, log), log[of]);
      case Alloc(size, alignment) =>
        p, panic, astray := Obtain(h, size, alignment, Asked(ops, log));
    }
    AskedMore(ops, log, p);
    if !panic && !astray {
      FreshMore(ops, log, p);
      CoversDisjoint(h, Asked(ops, log + [p]));
    }
  }

  // ----- a request that goes astray -----

  /** The kernel's heap lies in the last 2^39 bytes below 2^64, so that every alignment of 2^39 or more
      raises the next address to 2^64, which wraps to 0. */
  lemma KernelHeapWraps(v: nat, a: nat)
    requires 0xFFFF_FF80_0040_0000 <= v < U64 && PowerOfTwo(a) && 0x80_0000_0000 <= a < U64
    ensures AlignUp(v, a) == U64 && Align64(v, a) == 0
  {
    hide PowerOfTwo, Align64, AlignUp, Pow2;
    Word();
    PowerDivides(a, 64);
    AlignUpLeast(v, a, U64);
    AlignMacro(v, a);
    var j, k := AlignUp(v, a) / a, U64 / a;
    assert AlignUp(v, a) == a * j && U64 == a * k;
    MulOrder(a, j, k);
  }

  /** A new heap there, and one small request aligned to 2^39. */
  method KernelHeapAstray(size: nat) returns (panic: bool, astray: bool)
    requires 0 < size <= CHUNK_MAX_SIZE
    ensures astray && !panic
  {
    hide HeapOk, Live, PowerOfTwo, AlignUp, Rounded, Align64;
    var h := new Heap(0xFFFF_FF80_0040_0000, 0xFFFF_FF80_00A0_0000);
    BigPower();
    KernelHeapWraps(0xFFFF_FF80_0040_0018, 0x80_0000_0000);
    EmptyEnd(h.mem, h.base);
    ghost var k;
    var p;
    p, panic, astray, k := h.Kmalloc(size, 0x80_0000_0000);
  }

  lemma BigPower()
    ensures PowerOfTwo(0x80_0000_0000)
  {
    assert Pow2(7) == 128;
    hide PowerOfTwo, Pow2;
    PowerIs(39);
    Word();
    Pow2Sum(32, 7);
  }

  lemma EmptyEnd(mem: map<nat, Cell>, base: nat)
    ensures End(mem, base, []) == base
  {
  }
}
