/** The kernel heap's memory as chunk headers and holes laid end to end, with a list of the free
    chunks threaded through them. */
module HeapModel {
  import opened Base
  import opened ChainModel
  import opened Queue

  const HEADER: nat := 24
  const CHUNK_MIN_SIZE: nat := 8
  const CHUNK_MAX_SIZE: nat := 524288
  const CHUNK_SIZE_ALIGN: nat := 8
  const CHUNK_MAGIC: nat := 0xC0DE
  const HOLE_MAGIC: nat := 0xDEAD

  /** What is written at an address; the magic comes first in both. */
  datatype Cell =
    | Chunk(magic: nat, size: nat, free: bool)
    | Hole(magic: nat, size: nat)

  function Len(c: Cell): nat { if c.Chunk? then HEADER + c.size else c.size }

  ghost predicate CellOk(c: Cell) {
    match c
    case Chunk(magic, size, _) => magic == CHUNK_MAGIC && size >= CHUNK_MIN_SIZE && size % 8 == 0
    case Hole(magic, size) => magic == HOLE_MAGIC && 8 <= size < HEADER + CHUNK_MIN_SIZE && size % 8 == 0
  }

  /** The used heap, as the addresses of its pieces in order; each begins where the one before ends. */
  ghost predicate Laid(mem: map<nat, Cell>, base: nat, tiles: seq<nat>) {
    && base > 0 && base % 8 == 0
    && (tiles != [] ==> tiles[0] == base)
    && (forall i :: 0 <= i < |tiles| ==> tiles[i] in mem && CellOk(mem[tiles[i]]))
    && (forall i :: 0 < i < |tiles| ==> tiles[i] == tiles[i - 1] + Len(mem[tiles[i - 1]]))
  }

  /** A hole is followed by the chunk it was made for. */
  ghost predicate Tiled(mem: map<nat, Cell>, base: nat, tiles: seq<nat>) {
    && Laid(mem, base, tiles)
    && (forall i :: 0 <= i < |tiles| && mem[tiles[i]].Hole? ==> i + 1 < |tiles| && mem[tiles[i + 1]].Chunk?)
  }

  /** Where the used heap ends. */
  function End(mem: map<nat, Cell>, base: nat, tiles: seq<nat>): nat {
    if tiles == [] || tiles[|tiles| - 1] !in mem then base
    else tiles[|tiles| - 1] + Len(mem[tiles[|tiles| - 1]])
  }

  lemma {:induction false} TilesApart(mem: map<nat, Cell>, base: nat, tiles: seq<nat>, i: nat, j: nat)
    requires Laid(mem, base, tiles) && i < j < |tiles|
    ensures tiles[i] + Len(mem[tiles[i]]) <= tiles[j]
    decreases j
  {
    if i < j - 1 {
      TilesApart(mem, base, tiles, i, j - 1);
    }
  }

  lemma TilesBelow(mem: map<nat, Cell>, base: nat, tiles: seq<nat>)
    requires Laid(mem, base, tiles)
    ensures forall i :: 0 <= i < |tiles| ==> base <= tiles[i] && tiles[i] + Len(mem[tiles[i]]) <= End(mem, base, tiles)
    ensures forall i :: 0 <= i < |tiles| ==> tiles[i] % 8 == 0
    ensures End(mem, base, tiles) >= base && End(mem, base, tiles) % 8 == 0
    ensures NoDup(tiles)
  {
    TilesIn(mem, base, tiles);
    hide Laid, Len, End;
    forall i | 0 <= i < |tiles|
      ensures base <= tiles[i] && tiles[i] + Len(mem[tiles[i]]) <= End(mem, base, tiles) && tiles[i] % 8 == 0
    {
      TileBelow(mem, base, tiles, i);
    }
    EndBelow(mem, base, tiles);
    forall i, j | 0 <= i < j < |tiles|
      ensures tiles[i] != tiles[j]
    {
      TilesApart(mem, base, tiles, i, j);
      TileBelow(mem, base, tiles, i);
    }
  }

  lemma TilesIn(mem: map<nat, Cell>, base: nat, tiles: seq<nat>)
    requires Laid(mem, base, tiles)
    ensures forall i :: 0 <= i < |tiles| ==> tiles[i] in mem
  {
  }

  lemma TileBelow(mem: map<nat, Cell>, base: nat, tiles: seq<nat>, i: nat)
    requires Laid(mem, base, tiles) && i < |tiles|
    ensures base <= tiles[i] && tiles[i] + Len(mem[tiles[i]]) <= End(mem, base, tiles) && tiles[i] % 8 == 0
    ensures Len(mem[tiles[i]]) > 0
  {
    if i > 0 {
      TilesApart(mem, base, tiles, 0, i);
    }
    if i < |tiles| - 1 {
      TilesApart(mem, base, tiles, i, |tiles| - 1);
    }
    TileAligned(mem, base, tiles, i);
  }

  lemma EndBelow(mem: map<nat, Cell>, base: nat, tiles: seq<nat>)
    requires Laid(mem, base, tiles)
    ensures End(mem, base, tiles) >= base && End(mem, base, tiles) % 8 == 0
  {
    if tiles != [] {
      var i := |tiles| - 1;
      TileBelow(mem, base, tiles, i);
      TileAligned(mem, base, tiles, i);
      SumOfEights(tiles[i], Len(mem[tiles[i]]));
    }
  }

  lemma SumOfEights(a: nat, b: nat)
    requires a % 8 == 0 && b % 8 == 0
    ensures (a + b) % 8 == 0
  {
    ModUnique(a + b, 8, a / 8 + b / 8, 0);
  }

  lemma {:induction false} TileAligned(mem: map<nat, Cell>, base: nat, tiles: seq<nat>, i: nat)
    requires Laid(mem, base, tiles) && i < |tiles|
    ensures tiles[i] % 8 == 0 && Len(mem[tiles[i]]) % 8 == 0
  {
    if i > 0 {
      TileAligned(mem, base, tiles, i - 1);
      SumOfEights(tiles[i - 1], Len(mem[tiles[i - 1]]));
    }
  }

  /** The free list holds exactly the free chunks; the others are linked to nothing. */
  ghost predicate FreeList(mem: map<nat, Cell>, tiles: seq<nat>, ch: Chain, fl: seq<nat>) {
    && Linked(ch, fl) && NoDup(fl)
    && (forall a :: a in fl <==> a in tiles && a in mem && mem[a].Chunk? && mem[a].free)
    && (forall a :: a in tiles && a in mem && mem[a].Chunk? && !mem[a].free ==>
          a in ch.next && ch.next[a] == NIL && a in ch.prev && ch.prev[a] == NIL)
  }

  ghost predicate HeapOk(mem: map<nat, Cell>, base: nat, limit: nat, last: nat, tiles: seq<nat>, ch: Chain,
                         fl: seq<nat>) {
    && Tiled(mem, base, tiles) && End(mem, base, tiles) <= limit
    && (if tiles == [] then last == NIL else last == tiles[|tiles| - 1] && mem[last].Chunk?)
    && FreeList(mem, tiles, ch, fl)
  }

  /** The blocks that are handed out: from the address a caller got to the size of its chunk. */
  ghost function Live(mem: map<nat, Cell>, tiles: seq<nat>): map<nat, nat> {
    map p | p in LivePtrs(mem, tiles) :: mem[p - HEADER].size
  }

  ghost function LivePtrs(mem: map<nat, Cell>, tiles: seq<nat>): set<nat> {
    set a | a in tiles && a in mem && mem[a].Chunk? && !mem[a].free :: a + HEADER
  }

  // ----- what a caller may rely on -----

  lemma LiveInside(mem: map<nat, Cell>, base: nat, tiles: seq<nat>, p: nat)
    requires Tiled(mem, base, tiles) && p in Live(mem, tiles)
    ensures base + HEADER <= p && p + Live(mem, tiles)[p] <= End(mem, base, tiles)
  {
    TilesBelow(mem, base, tiles);
  }

  /** Blocks handed out lie in the heap, are big enough for their header and apart from each other. */
  lemma LiveApart(mem: map<nat, Cell>, base: nat, tiles: seq<nat>, p: nat, p': nat)
    requires Tiled(mem, base, tiles) && p in Live(mem, tiles) && p' in Live(mem, tiles) && p < p'
    ensures base + HEADER <= p && p + Live(mem, tiles)[p] + HEADER <= p'
    ensures p' + Live(mem, tiles)[p'] <= End(mem, base, tiles)
  {
    hide Laid, End, Live, CellOk, NoDup;
    TilesBelow(mem, base, tiles);
    var i := LiveTile(mem, tiles, p);
    var j := LiveTile(mem, tiles, p');
    if i < j {
      TilesApart(mem, base, tiles, i, j);
    } else {
      TilesApart(mem, base, tiles, j, i);
    }
  }

  /** The chunk of a block that is handed out. */
  lemma LiveTile(mem: map<nat, Cell>, tiles: seq<nat>, p: nat) returns (i: nat)
    requires p in Live(mem, tiles)
    ensures i < |tiles| && tiles[i] + HEADER == p && tiles[i] in mem && mem[tiles[i]].Chunk?
    ensures Len(mem[tiles[i]]) == HEADER + Live(mem, tiles)[p]
  {
    i :| 0 <= i < |tiles| && tiles[i] == p - HEADER;
  }

  // ----- marking a chunk -----

  function Marked(mem: map<nat, Cell>, a: nat, free: bool): map<nat, Cell>
    requires a in mem
  {
    match mem[a]
    case Chunk(magic, size, _) => mem[a := Chunk(magic, size, free)]
    case Hole(_, _) => mem
  }

  lemma MarkedTiled(mem: map<nat, Cell>, base: nat, tiles: seq<nat>, a: nat, free: bool)
    requires Tiled(mem, base, tiles) && a in mem && mem[a].Chunk?
    ensures Tiled(Marked(mem, a, free), base, tiles)
    ensures End(Marked(mem, a, free), base, tiles) == End(mem, base, tiles)
    ensures a in Marked(mem, a, free) && Marked(mem, a, free)[a].Chunk?
  {
  }

  /** A free chunk taken from the list. */
  lemma Reused(mem: map<nat, Cell>, base: nat, limit: nat, last: nat, tiles: seq<nat>, ch: Chain, fl: seq<nat>, k: nat)
    requires HeapOk(mem, base, limit, last, tiles, ch, fl) && k < |fl|
    ensures fl[k] in mem && mem[fl[k]].Chunk? && fl[k] in ch.next && fl[k] in ch.prev
    ensures fl[k] in tiles && mem[fl[k]].free && forall a :: a in fl ==> a in RemoveAt(fl, k) || a == fl[k]
    ensures HeapOk(Marked(mem, fl[k], false), base, limit, last, tiles, ListRemove(ch, fl[k]), RemoveAt(fl, k))
  {
    var a := fl[k];
    assert a in fl;
    MarkedTiled(mem, base, tiles, a, false);
    RemoveIsRemove(ch, fl, k);
    RemovedElements(fl, k);
  }

  lemma ReusedLive(mem: map<nat, Cell>, tiles: seq<nat>, a: nat)
    requires a in tiles && a in mem && mem[a].Chunk? && mem[a].free
    ensures a + HEADER !in Live(mem, tiles)
    ensures Live(Marked(mem, a, false), tiles) == Live(mem, tiles)[a + HEADER := mem[a].size]
  {
    var m := Marked(mem, a, false);
    var before, after := LivePtrs(mem, tiles), LivePtrs(m, tiles);
    forall p
      ensures p in after <==> p in before || p == a + HEADER
    {
      var c := p - HEADER;
      assert p in after <==> c in tiles && c in m && m[c].Chunk? && !m[c].free;
      assert p in before <==> c in tiles && c in mem && mem[c].Chunk? && !mem[c].free;
    }
    assert after == before + {a + HEADER};
  }

  /** A live chunk put on the list. */
  lemma Freed(mem: map<nat, Cell>, base: nat, limit: nat, last: nat, tiles: seq<nat>, ch: Chain, fl: seq<nat>, a: nat)
    requires HeapOk(mem, base, limit, last, tiles, ch, fl)
    requires a in tiles && a in mem && mem[a].Chunk? && !mem[a].free
    ensures HeapOk(Marked(mem, a, true), base, limit, last, tiles, ListAddFront(ch, a), [a] + fl)
  {
    TilesBelow(mem, base, tiles);
    MarkedTiled(mem, base, tiles, a, true);
    AddFrontIsPrepend(ch, fl, a);
  }

  lemma FreedLive(mem: map<nat, Cell>, tiles: seq<nat>, a: nat)
    requires a in tiles && a in mem && mem[a].Chunk? && !mem[a].free
    ensures a + HEADER in Live(mem, tiles)
    ensures Live(Marked(mem, a, true), tiles) == Live(mem, tiles) - {a + HEADER}
  {
    var m := Marked(mem, a, true);
    assert LivePtrs(m, tiles) == LivePtrs(mem, tiles) - {a + HEADER};
  }

  // ----- new chunks at the end of the used heap -----

  lemma {:induction false} PowerCases(a: nat)
    requires PowerOfTwo(a)
    ensures a == 1 || a == 2 || a == 4 || a % 8 == 0
  {
    hide PowerOfTwo;
    PowerHalf(a);
    if a > 1 {
      PowerCases(a / 2);
      DoubledCases(a / 2);
    }
  }

  lemma DoubledCases(h: nat)
    requires h == 1 || h == 2 || h == 4 || h % 8 == 0
    ensures 2 * h == 2 || 2 * h == 4 || (2 * h) % 8 == 0
  {
    if h % 8 == 0 {
      assert 2 * h == 8 * (2 * (h / 8));
    }
  }

  lemma AlignSmall(v: nat, a: nat)
    requires (a == 1 || a == 2 || a == 4) && v % 8 == 0
    ensures AlignUp(v, a) == v
  {
    hide AlignUp;
    var q := v / 8;
    ModUnique(v, a, if a == 1 then 8 * q else if a == 2 then 4 * q else 2 * q, 0);
    AlignUpLeast(v, a, v);
  }

  /** Aligning a multiple of eight gives a multiple of eight. */
  lemma AlignKeepsEight(v: nat, a: nat)
    requires PowerOfTwo(a) && v % 8 == 0
    ensures a > 0 && AlignUp(v, a) % 8 == 0 && v <= AlignUp(v, a) && AlignUp(v, a) % a == 0
  {
    hide PowerOfTwo, AlignUp;
    PowerCases(a);
    if a == 1 || a == 2 || a == 4 {
      AlignSmall(v, a);
      AlignUpLeast(v, a, v);
    } else {
      PowerPositive(a);
      AlignUpLeast(v, a, v);
      MultipleOfEight(AlignUp(v, a), a);
    }
  }

  lemma MultipleOfEight(r: nat, a: nat)
    requires a > 0 && a % 8 == 0 && r % a == 0
    ensures r % 8 == 0
  {
    var k, j := r / a, a / 8;
    assert r == 8 * (j * k) + 0 by {
      assert r == a * k && a == 8 * j;
    }
    ModUnique(r, 8, j * k, 0);
  }

  /** The pieces that a new chunk at `aligned` adds, the gap before it first. */
  function NewTiles(end: nat, aligned: nat): seq<nat> {
    if aligned == end then [aligned] else [end, aligned]
  }

  function WithGap(mem: map<nat, Cell>, end: nat, aligned: nat): map<nat, Cell>
    requires end <= aligned
  {
    var gap := aligned - end;
    if gap == 0 then mem
    else if gap < HEADER + CHUNK_MIN_SIZE then mem[end := Hole(HOLE_MAGIC, gap)]
    else mem[end := Chunk(CHUNK_MAGIC, gap - HEADER, true)]
  }

  /** Whether the gap is wide enough to be a chunk. */
  predicate GapChunk(end: nat, aligned: nat) { aligned >= end + HEADER + CHUNK_MIN_SIZE }

  function WithChunk(mem: map<nat, Cell>, end: nat, aligned: nat, n: nat): map<nat, Cell>
    requires end <= aligned
  { WithGap(mem, end, aligned)[aligned := Chunk(CHUNK_MAGIC, n, false)] }

  lemma AppendLaid(mem: map<nat, Cell>, base: nat, tiles: seq<nat>, c: Cell)
    requires Laid(mem, base, tiles) && CellOk(c)
    ensures var end := End(mem, base, tiles);
      && Laid(mem[end := c], base, tiles + [end]) && End(mem[end := c], base, tiles + [end]) == end + Len(c)
      && forall i :: 0 <= i < |tiles| ==> tiles[i] in mem && tiles[i] < end && mem[end := c][tiles[i]] == mem[tiles[i]]
  {
    TilesBelow(mem, base, tiles);
  }

  lemma GrownLaid(mem: map<nat, Cell>, base: nat, tiles: seq<nat>, aligned: nat, n: nat)
    requires Laid(mem, base, tiles)
    requires var end := End(mem, base, tiles); end <= aligned && aligned % 8 == 0
    requires n >= CHUNK_MIN_SIZE && n % 8 == 0
    ensures var end := End(mem, base, tiles);
      && var mem', tiles' := WithChunk(mem, end, aligned, n), tiles + NewTiles(end, aligned);
      && Laid(mem', base, tiles') && End(mem', base, tiles') == aligned + HEADER + n
      && (forall i :: 0 <= i < |tiles| ==> tiles[i] in mem && tiles[i] < end && mem'[tiles[i]] == mem[tiles[i]])
      && (aligned != end ==> mem'[end] == WithGap(mem, end, aligned)[end])
  {
    hide Laid, End, NoDup;
    TilesBelow(mem, base, tiles);
    var end := End(mem, base, tiles);
    var c := Chunk(CHUNK_MAGIC, n, false);
    if aligned == end {
      AppendLaid(mem, base, tiles, c);
    } else {
      var mem1 := WithGap(mem, end, aligned);
      AppendLaid(mem, base, tiles, mem1[end]);
      assert mem1 == mem[end := mem1[end]];
      AppendLaid(mem1, base, tiles + [end], c);
      assert tiles + [end, aligned] == tiles + [end] + [aligned];
      assert forall i :: 0 <= i < |tiles| ==> (tiles + [end])[i] == tiles[i];
    }
  }

  lemma GrownTiled(mem: map<nat, Cell>, base: nat, tiles: seq<nat>, aligned: nat, n: nat)
    requires Tiled(mem, base, tiles) && (tiles != [] ==> mem[tiles[|tiles| - 1]].Chunk?)
    requires var end := End(mem, base, tiles); end <= aligned && aligned % 8 == 0
    requires n >= CHUNK_MIN_SIZE && n % 8 == 0
    ensures var end := End(mem, base, tiles);
      && var mem', tiles' := WithChunk(mem, end, aligned, n), tiles + NewTiles(end, aligned);
      && Tiled(mem', base, tiles') && End(mem', base, tiles') == aligned + HEADER + n
      && (forall i :: 0 <= i < |tiles| ==> tiles[i] < end && mem'[tiles[i]] == mem[tiles[i]])
  {
    GrownLaid(mem, base, tiles, aligned, n);
    hide Laid, WithChunk, End, CellOk;
  }

  lemma GrownFree(mem: map<nat, Cell>, base: nat, tiles: seq<nat>, ch: Chain, fl: seq<nat>, aligned: nat, n: nat)
    requires Tiled(mem, base, tiles) && FreeList(mem, tiles, ch, fl)
    requires var end := End(mem, base, tiles); end <= aligned && aligned % 8 == 0
    requires n >= CHUNK_MIN_SIZE && n % 8 == 0
    ensures var end := End(mem, base, tiles);
      && var mem', tiles' := WithChunk(mem, end, aligned, n), tiles + NewTiles(end, aligned);
      FreeList(mem', tiles', GrownChain(ch, end, aligned), if GapChunk(end, aligned) then [end] + fl else fl)
  {
    var end := End(mem, base, tiles);
    GrownLaid(mem, base, tiles, aligned, n);
    TilesBelow(mem, base, tiles);
    hide Laid, End;
    ListGrown(mem, tiles, ch, fl, end, aligned, n);
  }

  /** The list after a new chunk at `aligned`, which is linked to nothing. */
  function GrownChain(ch: Chain, end: nat, aligned: nat): Chain {
    var ch1 := if GapChunk(end, aligned) then ListAddFront(ch, end) else ch;
    ch1.(next := ch1.next[aligned := NIL], prev := ch1.prev[aligned := NIL])
  }

  lemma ListGrown(mem: map<nat, Cell>, tiles: seq<nat>, ch: Chain, fl: seq<nat>, end: nat, aligned: nat, n: nat)
    requires FreeList(mem, tiles, ch, fl) && 0 < end <= aligned
    requires forall i :: 0 <= i < |tiles| ==> tiles[i] in mem && tiles[i] < end
    ensures var mem', tiles' := WithChunk(mem, end, aligned, n), tiles + NewTiles(end, aligned);
      FreeList(mem', tiles', GrownChain(ch, end, aligned), if GapChunk(end, aligned) then [end] + fl else fl)
  {
    hide WithChunk, GrownChain, Linked, NoDup, NewTiles;
    GrownMembers(mem, tiles, end, aligned, n);
    var fl' := if GapChunk(end, aligned) then [end] + fl else fl;
    assert Linked(GrownChain(ch, end, aligned), fl') && NoDup(fl') by {
      GrownLinked(ch, fl, end, aligned);
    }
    assert forall a :: a in fl' <==> a in fl || (GapChunk(end, aligned) && a == end);
    forall a | a in tiles && mem[a].Chunk? && !mem[a].free
      ensures var c' := GrownChain(ch, end, aligned);
        a in c'.next && c'.next[a] == NIL && a in c'.prev && c'.prev[a] == NIL
    {
      StillUnlinked(ch, fl, end, aligned, a);
    }
    FreshUnlinked(ch, end, aligned);
  }

  /** What the new pieces are. */
  lemma GrownMembers(mem: map<nat, Cell>, tiles: seq<nat>, end: nat, aligned: nat, n: nat)
    requires end <= aligned && forall i :: 0 <= i < |tiles| ==> tiles[i] in mem && tiles[i] < end
    ensures var mem', tiles' := WithChunk(mem, end, aligned, n), tiles + NewTiles(end, aligned);
      && (forall a :: a in tiles' <==> a in tiles || a == aligned || a == end)
      && (forall a :: a in tiles ==> a in mem && a in mem' && mem'[a] == mem[a] && a < end)
      && mem'[aligned] == Chunk(CHUNK_MAGIC, n, false) && end in mem'
      && (end != aligned ==> mem'[end].Chunk? == GapChunk(end, aligned) && (mem'[end].Chunk? ==> mem'[end].free))
  {
  }

  lemma GrownLinked(ch: Chain, fl: seq<nat>, end: nat, aligned: nat)
    requires Linked(ch, fl) && NoDup(fl) && 0 < end <= aligned && forall a :: a in fl ==> a < end
    ensures var fl' := if GapChunk(end, aligned) then [end] + fl else fl;
      Linked(GrownChain(ch, end, aligned), fl') && NoDup(fl')
  {
    var ch1 := if GapChunk(end, aligned) then ListAddFront(ch, end) else ch;
    var fl1 := if GapChunk(end, aligned) then [end] + fl else fl;
    if GapChunk(end, aligned) {
      AddFrontIsPrepend(ch, fl, end);
    }
    LinkedBut(ch1, GrownChain(ch, end, aligned), fl1, aligned);
  }

  lemma StillUnlinked(ch: Chain, fl: seq<nat>, end: nat, aligned: nat, a: nat)
    requires Linked(ch, fl) && NoDup(fl) && 0 < end <= aligned && a < end && a !in fl && end !in fl
    requires a in ch.next && ch.next[a] == NIL && a in ch.prev && ch.prev[a] == NIL
    ensures var c' := GrownChain(ch, end, aligned);
      a in c'.next && c'.next[a] == NIL && a in c'.prev && c'.prev[a] == NIL
  {
    if GapChunk(end, aligned) {
      AddFrontIsPrepend(ch, fl, end);
      assert SameLinks(ch, ListAddFront(ch, end), a);
    }
  }

  lemma FreshUnlinked(ch: Chain, end: nat, aligned: nat)
    ensures var c' := GrownChain(ch, end, aligned);
      aligned in c'.next && c'.next[aligned] == NIL && aligned in c'.prev && c'.prev[aligned] == NIL
  {
  }

  /** Everything after a new chunk: the invariant, and one more block handed out. */
  lemma Grown(mem: map<nat, Cell>, base: nat, limit: nat, last: nat, tiles: seq<nat>, ch: Chain, fl: seq<nat>,
              aligned: nat, n: nat)
    requires HeapOk(mem, base, limit, last, tiles, ch, fl)
    requires var end := End(mem, base, tiles); end <= aligned && aligned % 8 == 0
    requires n >= CHUNK_MIN_SIZE && n % 8 == 0 && aligned + HEADER + n <= limit
    ensures var end := End(mem, base, tiles);
      && var mem', tiles' := WithChunk(mem, end, aligned, n), tiles + NewTiles(end, aligned);
      HeapOk(mem', base, limit, aligned, tiles', GrownChain(ch, end, aligned),
             if GapChunk(end, aligned) then [end] + fl else fl)
  {
    GrownTiled(mem, base, tiles, aligned, n);
    GrownFree(mem, base, tiles, ch, fl, aligned, n);
    hide Tiled, FreeList, End, GrownChain;
  }

  lemma GrownLive(mem: map<nat, Cell>, base: nat, tiles: seq<nat>, aligned: nat, n: nat)
    requires Tiled(mem, base, tiles) && End(mem, base, tiles) <= aligned
    ensures var end := End(mem, base, tiles);
      && var mem', tiles' := WithChunk(mem, end, aligned, n), tiles + NewTiles(end, aligned);
      && aligned + HEADER !in Live(mem, tiles)
      && Live(mem', tiles') == Live(mem, tiles)[aligned + HEADER := n]
  {
    var end := End(mem, base, tiles);
    var mem', tiles' := WithChunk(mem, end, aligned, n), tiles + NewTiles(end, aligned);
    TilesBelow(mem, base, tiles);
    GrownMembers(mem, tiles, end, aligned, n);
    hide Laid, End, NoDup, WithChunk, CellOk, Live;
    LiveMore(mem, tiles, mem', tiles', end, aligned, n);
  }

  lemma LiveMore(mem: map<nat, Cell>, tiles: seq<nat>, mem': map<nat, Cell>, tiles': seq<nat>, e: nat, a: nat, n: nat)
    requires forall x :: x in tiles' <==> x in tiles || x == a || x == e
    requires forall x :: x in tiles ==> x in mem && x in mem' && mem'[x] == mem[x] && x != a && x != e
    requires a in mem' && mem'[a] == Chunk(CHUNK_MAGIC, n, false) && e in mem'
    requires e != a && mem'[e].Chunk? ==> mem'[e].free
    ensures a + HEADER !in Live(mem, tiles) && Live(mem', tiles') == Live(mem, tiles)[a + HEADER := n]
  {
    assert LivePtrs(mem', tiles') == LivePtrs(mem, tiles) + {a + HEADER} by {
      forall p | p in LivePtrs(mem, tiles) + {a + HEADER}
        ensures p in LivePtrs(mem', tiles')
      {
        var x := p - HEADER;
        assert x in tiles' && x in mem' && mem'[x].Chunk? && !mem'[x].free;
      }
    }
  }

  /** The end of the used heap is found from the last chunk. */
  lemma EndFromLast(mem: map<nat, Cell>, base: nat, limit: nat, last: nat, tiles: seq<nat>, ch: Chain, fl: seq<nat>)
    requires HeapOk(mem, base, limit, last, tiles, ch, fl)
    ensures last != NIL ==> last in mem && End(mem, base, tiles) == last + HEADER + mem[last].size
    ensures last == NIL ==> End(mem, base, tiles) == base
    ensures End(mem, base, tiles) % 8 == 0 && 0 < base <= End(mem, base, tiles) <= limit
  {
    TilesBelow(mem, base, tiles);
  }

  lemma GrownAll(mem: map<nat, Cell>, base: nat, limit: nat, last: nat, tiles: seq<nat>, ch: Chain, fl: seq<nat>,
                 aligned: nat, n: nat)
    requires HeapOk(mem, base, limit, last, tiles, ch, fl)
    requires var end := End(mem, base, tiles); end <= aligned && aligned % 8 == 0
    requires n >= CHUNK_MIN_SIZE && n % 8 == 0 && aligned + HEADER + n <= limit
    ensures var end := End(mem, base, tiles);
      && var mem', tiles' := WithChunk(mem, end, aligned, n), tiles + NewTiles(end, aligned);
      && HeapOk(mem', base, limit, aligned, tiles', GrownChain(ch, end, aligned),
                if GapChunk(end, aligned) then [end] + fl else fl)
      && aligned + HEADER !in Live(mem, tiles) && Live(mem', tiles') == Live(mem, tiles)[aligned + HEADER := n]
  {
    Grown(mem, base, limit, last, tiles, ch, fl, aligned, n);
    GrownLive(mem, base, tiles, aligned, n);
  }

  /** A chunk that is not free is handed out, and linked to nothing. */
  lemma ChunkFacts(mem: map<nat, Cell>, base: nat, limit: nat, last: nat, tiles: seq<nat>, ch: Chain, fl: seq<nat>,
                   a: nat)
    requires HeapOk(mem, base, limit, last, tiles, ch, fl) && a in tiles && a in mem && mem[a].Chunk?
    ensures mem[a].magic == CHUNK_MAGIC && (a + HEADER in Live(mem, tiles) <==> !mem[a].free)
    ensures !mem[a].free ==> a in ch.next && ch.next[a] == NIL && a in ch.prev && ch.prev[a] == NIL
    ensures Tiled(mem, base, tiles) && End(mem, base, tiles) <= limit && |tiles| > 0 && last == tiles[|tiles| - 1]
  {
    if a + HEADER in Live(mem, tiles) {
      var b :| b in tiles && b in mem && mem[b].Chunk? && !mem[b].free && b + HEADER == a + HEADER;
    }
  }

  /** Where a walk of the free list stands after `j` steps. */
  lemma FreeAt(mem: map<nat, Cell>, base: nat, limit: nat, last: nat, tiles: seq<nat>, ch: Chain, fl: seq<nat>, j: nat)
    requires HeapOk(mem, base, limit, last, tiles, ch, fl) && j <= |fl|
    ensures ch.first == Nth(fl, 0) && (Nth(fl, j) == NIL <==> j == |fl|)
    ensures j < |fl| ==>
      && fl[j] != NIL && fl[j] in mem && mem[fl[j]].Chunk?
      && fl[j] in ch.next && ch.next[fl[j]] == Nth(fl, j + 1)
  {
    if j < |fl| {
      assert LinkAt(ch, fl, j) && fl[j] in fl;
    }
  }

  lemma NotChunkNotLive(mem: map<nat, Cell>, tiles: seq<nat>, p: nat)
    ensures p in Live(mem, tiles) ==> p != NIL && p >= HEADER && p - HEADER in mem && mem[p - HEADER].Chunk?
  {
  }

  /** Nothing is recorded of other addresses. */
  ghost predicate OnlyTiles(mem: map<nat, Cell>, tiles: seq<nat>) { forall a :: a in mem ==> a in tiles }

  lemma OnlyNewTiles(mem: map<nat, Cell>, tiles: seq<nat>, end: nat, aligned: nat, n: nat)
    requires end <= aligned && OnlyTiles(mem, tiles)
    ensures OnlyTiles(WithChunk(mem, end, aligned, n), tiles + NewTiles(end, aligned))
  {
  }

  lemma OnlyMarked(mem: map<nat, Cell>, tiles: seq<nat>, a: nat, free: bool)
    requires OnlyTiles(mem, tiles) && a in mem && mem[a].Chunk?
    ensures OnlyTiles(Marked(mem, a, free), tiles)
  {
  }

  lemma RecordedTile(mem: map<nat, Cell>, tiles: seq<nat>, a: nat)
    requires OnlyTiles(mem, tiles) && a in mem
    ensures a in tiles
  {
  }

  // ----- aligning past the end of 64 bits -----

  /** The powers of two in the top quarter of 64 bits. */
  lemma TopPower(a: nat)
    requires PowerOfTwo(a) && 0x4000_0000_0000_0000 < a < U64
    ensures a == 0x8000_0000_0000_0000
  {
    hide PowerOfTwo, Pow2;
    Word();
    PowerDivides(a, 64);
    var q := U64 / a;
    assert U64 == a * q;
    if q <= 1 {
      assert a * q <= a by {
        MulOrder(a, q, 1);
      }
    } else if q >= 4 {
      assert a * q >= a * 4 by {
        MulOrder(a, 4, q);
      }
    }
  }

  /** Aligning wraps to 0 or not at all; and what wraps, with the size of a chunk, lies high. */
  lemma AlignWraps(v: nat, a: nat, n: nat)
    requires PowerOfTwo(a) && 0 < a < U64 && v < U64 && n < 2 * CHUNK_MAX_SIZE
    ensures Align64(v, a) == if AlignUp(v, a) < U64 then AlignUp(v, a) else 0
    ensures v <= AlignUp(v, a) && AlignUp(v, a) % a == 0
    ensures AlignUp(v, a) + n >= U64 ==> v > 4 * CHUNK_MAX_SIZE
  {
    hide PowerOfTwo, Align64, AlignUp, Pow2;
    AlignMacro(v, a);
    AlignUpLeast(v, a, v);
    Word();
    PowerDivides(a, 64);
    var u := AlignUp(v, a);
    if u >= U64 {
      var j, k := u / a, U64 / a;
      assert u == a * j && U64 == a * k;
      MulOrder(a, j, k);
      MulOrder(a, k, j);
    }
    if a > 0x4000_0000_0000_0000 {
      TopPower(a);
      AlignUpLeast(v, a, 0x8000_0000_0000_0000);
    }
  }
}
