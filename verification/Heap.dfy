/** kmalloc and kfree of kernel/mm/heap.c. */
module Heaps {
  import opened Base
  import opened ChainModel
  import opened Queue
  import opened HeapModel

  const U32_HALF: nat := 0x8000_0000

  /** A chunk that can serve a request: its memory is aligned and it is big enough. */
  predicate Serves(mem: map<nat, Cell>, a: nat, n: nat, alignment: nat)
    requires alignment > 0
  {
    a in mem && (a + HEADER) % alignment == 0 && mem[a].size >= n
  }

  ghost predicate SomeServes(mem: map<nat, Cell>, fl: seq<nat>, n: nat, alignment: nat)
    requires alignment > 0
  {
    exists i :: 0 <= i < |fl| && Serves(mem, fl[i], n, alignment)
  }

  /** The `k`-th free chunk serves, and none that serves is smaller. */
  ghost predicate Smallest(mem: map<nat, Cell>, fl: seq<nat>, n: nat, alignment: nat, k: nat)
    requires alignment > 0
  {
    && k < |fl| && Serves(mem, fl[k], n, alignment)
    && forall i :: 0 <= i < |fl| && Serves(mem, fl[i], n, alignment) ==> mem[fl[i]].size >= mem[fl[k]].size
  }

  /** The state of the search after `j` chunks: the smallest that serves so far, the first of its size. */
  ghost predicate Best(mem: map<nat, Cell>, fl: seq<nat>, j: nat, n: nat, alignment: nat, best: nat, k: nat)
    requires alignment > 0 && j <= |fl|
  {
    if best == NIL then forall i :: 0 <= i < j ==> !Serves(mem, fl[i], n, alignment)
    else
      && k < j && fl[k] == best && Serves(mem, best, n, alignment)
      && (forall i :: 0 <= i < j && Serves(mem, fl[i], n, alignment) ==> mem[fl[i]].size >= mem[best].size)
      && (forall i :: 0 <= i < k && Serves(mem, fl[i], n, alignment) ==> mem[fl[i]].size > mem[best].size)
  }

  lemma BestStart(mem: map<nat, Cell>, fl: seq<nat>, n: nat, alignment: nat)
    requires alignment > 0
    ensures Best(mem, fl, 0, n, alignment, NIL, 0)
  {
  }

  lemma BestStep(mem: map<nat, Cell>, fl: seq<nat>, j: nat, n: nat, alignment: nat, best: nat, k: nat)
    requires alignment > 0 && j < |fl| && fl[j] in mem && fl[j] != NIL && Best(mem, fl, j, n, alignment, best, k)
    requires best != NIL ==> best in mem
    ensures
      if Serves(mem, fl[j], n, alignment) && (best == NIL || mem[fl[j]].size < mem[best].size)
      then Best(mem, fl, j + 1, n, alignment, fl[j], j)
      else Best(mem, fl, j + 1, n, alignment, best, k)
  {
  }

  lemma BestDone(mem: map<nat, Cell>, fl: seq<nat>, n: nat, alignment: nat, best: nat, k: nat)
    requires alignment > 0 && Best(mem, fl, |fl|, n, alignment, best, k)
    ensures best == NIL <==> !SomeServes(mem, fl, n, alignment)
    ensures best != NIL ==>
      && Smallest(mem, fl, n, alignment, k) && k < |fl| && fl[k] == best
      && best in mem && mem[best].size >= n && (best + HEADER) % alignment == 0
      && forall i :: 0 <= i < k && Serves(mem, fl[i], n, alignment) ==> mem[fl[i]].size > mem[best].size
  {
  }

  /** One more block of at least `n` bytes is handed out, and the others are as before. */
  ghost predicate HandsOut(before: map<nat, nat>, after: map<nat, nat>, p: nat, n: nat) {
    p !in before && p in after && after[p] >= n && after == before[p := after[p]]
  }

  /** What a request of `size` bytes is rounded to. */
  function Rounded(size: nat): nat {
    AlignUp(if size > CHUNK_MIN_SIZE then size else CHUNK_MIN_SIZE, CHUNK_SIZE_ALIGN)
  }

  lemma RoundedOk(size: nat)
    ensures Rounded(size) >= size && Rounded(size) >= CHUNK_MIN_SIZE && Rounded(size) % 8 == 0
    ensures Rounded(size) < size + 16
  {
  }

  class Heap {
    const base: nat
    const limit: nat
    /** The last chunk made. */
    var last: nat
    /** The list of free chunks. */
    var ch: Chain
    var mem: map<nat, Cell>

    ghost var tiles: seq<nat>
    ghost var fl: seq<nat>

    ghost predicate Valid()
      reads this
    {
      && base <= limit < base + U32_HALF && limit + HEADER < U64 && HeapOk(mem, base, limit, last, tiles, ch, fl)
      && OnlyTiles(mem, tiles)
    }

    constructor (base: nat, limit: nat)
      requires base > 0 && base % 8 == 0 && base <= limit < base + U32_HALF && limit + HEADER < U64
      ensures Valid() && tiles == [] && fl == [] && this.base == base && this.limit == limit
    {
      this.base, this.limit := base, limit;
      last, ch, mem := NIL, Chain(NIL, NIL, map[], map[]), map[];
      tiles, fl := [], [];
    }

    /** The search of the free list for the smallest chunk that serves, the first of that size. */
    method BestFit(n: nat, alignment: nat) returns (best: nat, ghost k: nat)
      requires Valid() && alignment > 0
      ensures best == NIL <==> !SomeServes(mem, fl, n, alignment)
      ensures best != NIL ==>
        && Smallest(mem, fl, n, alignment, k) && k < |fl| && fl[k] == best
        && best in mem && mem[best].size >= n && (best + HEADER) % alignment == 0
        && forall i :: 0 <= i < k && Serves(mem, fl[i], n, alignment) ==> mem[fl[i]].size > mem[best].size
    {
      hide HeapOk, Best;
      best, k := NIL, 0;
      var curr := ch.first;
      ghost var j := 0;
      BestStart(mem, fl, n, alignment);
      FreeAt(mem, base, limit, last, tiles, ch, fl, 0);
      while curr != NIL
        invariant j <= |fl| && curr == Nth(fl, j) && (curr == NIL <==> j == |fl|)
        invariant Best(mem, fl, j, n, alignment, best, k)
        invariant best != NIL ==> best in mem
        decreases |fl| - j
      {
        FreeAt(mem, base, limit, last, tiles, ch, fl, j);
        BestStep(mem, fl, j, n, alignment, best, k);
        if (curr + HEADER) % alignment == 0 && mem[curr].size >= n {
          if best == NIL || mem[curr].size < mem[best].size {
            best, k := curr, j;
          }
        }
        curr, j := ch.next[curr], j + 1;
        FreeAt(mem, base, limit, last, tiles, ch, fl, j);
      }
      BestDone(mem, fl, n, alignment, best, k);
    }

    /** The chunk after `chunk`, or null at the end; panics on a bad magic. */
    method GetNextChunk(chunk: nat, ghost i: nat) returns (next: nat, panic: bool)
      requires Tiled(mem, base, tiles) && End(mem, base, tiles) <= limit
      requires i < |tiles| && tiles[i] == chunk && mem[chunk].Chunk? && last == tiles[|tiles| - 1]
      ensures !panic
      ensures next == NIL <==> i + 1 == |tiles|
      ensures next != NIL ==>
        && next in mem && mem[next].Chunk? && next in tiles[i + 1..]
        && next == (if mem[tiles[i + 1]].Chunk? then tiles[i + 1] else Nth(tiles, i + 2))
    {
      TilesBelow(mem, base, tiles);
      if chunk == last {
        return NIL, false;
      }
      assert i + 1 < |tiles|;
      var addr := chunk + HEADER + mem[chunk].size;
      assert addr == tiles[i + 1];
      if addr < limit && mem[addr].magic == HOLE_MAGIC {
        addr := addr + mem[addr].size;
        assert addr == tiles[i + 2];
      }
      if addr >= limit {
        return NIL, false;
      }
      if mem[addr].magic != CHUNK_MAGIC {
        return NIL, true;
      }
      return addr, false;
    }

    /** The blocks handed out, from address to size. */
    ghost function Blocks(): map<nat, nat>
      reads this
    { Live(mem, tiles) }

    /** Where a chunk at the end of the used heap has its memory, past the end of 64 bits too. */
    ghost function EndAligned(alignment: nat): nat
      requires alignment > 0
      reads this
    { AlignUp(End(mem, base, tiles) + HEADER, alignment) }

    /** __kmalloc.  A panic stops the kernel, so nothing is promised after one.  The source aligns and
        adds in 64 bits, and does not notice when that wraps: it then goes astray, and nothing is
        promised of that either. */
    method Kmalloc(size: nat, alignment: nat) returns (p: nat, panic: bool, astray: bool, ghost k: nat)
      requires Valid() && alignment < U64
      modifies this
      ensures size == 0 && PowerOfTwo(alignment) ==>
        p == NIL && mem == old(mem) && tiles == old(tiles) && fl == old(fl) && ch == old(ch)
      ensures panic <==>
        || !PowerOfTwo(alignment) || size > CHUNK_MAX_SIZE
        || (size > 0 && !SomeServes(old(mem), old(fl), Rounded(size), alignment)
            && limit < old(EndAligned(alignment)) + Rounded(size) < U64)
      ensures astray <==>
        && PowerOfTwo(alignment) && 0 < size <= CHUNK_MAX_SIZE
        && !SomeServes(old(mem), old(fl), Rounded(size), alignment)
        && old(EndAligned(alignment)) + Rounded(size) >= U64
      ensures !panic && !astray ==> Valid() && forall a :: a in old(fl) ==> a in fl || a + HEADER == p
      ensures !panic && !astray && size > 0 ==>
        p >= HEADER && p % alignment == 0 && HandsOut(old(Blocks()), Blocks(), p, size)
      ensures !panic && size > 0 && SomeServes(old(mem), old(fl), Rounded(size), alignment) ==>
        && tiles == old(tiles) && Smallest(old(mem), old(fl), Rounded(size), alignment, k)
        && p == old(fl)[k] + HEADER && fl == RemoveAt(old(fl), k)
      ensures !panic && !astray && size > 0 && !SomeServes(old(mem), old(fl), Rounded(size), alignment) ==>
        && p == old(EndAligned(alignment)) && Blocks()[p] == Rounded(size)
        && tiles == old(tiles) + NewTiles(End(old(mem), base, old(tiles)), p - HEADER)
    {
      hide HeapOk, Live, End, AlignUp, PowerOfTwo, RemoveAt, Rounded, SomeServes, Smallest, NewTiles;
      p, panic, astray, k := NIL, false, false, 0;
      PowerPositive(alignment);
      if !PowerOfTwo(alignment) {
        panic := true;
        return;
      }
      if size == 0 {
        return;
      } else if size > CHUNK_MAX_SIZE {
        panic := true;
        return;
      }
      RoundedOk(size);
      p, panic, astray, k := Serve(Rounded(size), alignment);
    }

    /** A request of the rounded size: from the free list when it can be, else at the end. */
    method Serve(n: nat, alignment: nat) returns (p: nat, panic: bool, astray: bool, ghost k: nat)
      requires Valid() && PowerOfTwo(alignment) && 0 < alignment < U64
      requires CHUNK_MIN_SIZE <= n < 2 * CHUNK_MAX_SIZE && n % 8 == 0
      modifies this
      ensures panic <==>
        !SomeServes(old(mem), old(fl), n, alignment) && limit < old(EndAligned(alignment)) + n < U64
      ensures astray <==>
        !SomeServes(old(mem), old(fl), n, alignment) && old(EndAligned(alignment)) + n >= U64
      ensures !panic && !astray ==>
        && Valid() && p >= HEADER && p % alignment == 0 && HandsOut(old(Blocks()), Blocks(), p, n)
        && forall a :: a in old(fl) ==> a in fl || a + HEADER == p
      ensures SomeServes(old(mem), old(fl), n, alignment) ==>
        && tiles == old(tiles) && Smallest(old(mem), old(fl), n, alignment, k)
        && p == old(fl)[k] + HEADER && fl == RemoveAt(old(fl), k)
      ensures !panic && !astray && !SomeServes(old(mem), old(fl), n, alignment) ==>
        && p == old(EndAligned(alignment)) && Blocks()[p] == n
        && tiles == old(tiles) + NewTiles(End(old(mem), base, old(tiles)), p - HEADER)
    {
      hide HeapOk, Live, End, AlignUp, PowerOfTwo, RemoveAt, SomeServes, Smallest, Serves, NewTiles;
      var best;
      best, k := BestFit(n, alignment);
      if best == NIL {
        p, panic, astray := Extend(n, alignment);
      } else {
        TakeFree(best, k);
        p, panic, astray := best + HEADER, false, false;
      }
    }

    method TakeFree(chunk: nat, ghost k: nat)
      requires Valid() && k < |fl| && fl[k] == chunk
      modifies this
      ensures Valid() && tiles == old(tiles) && fl == RemoveAt(old(fl), k)
      ensures forall a :: a in old(fl) ==> a in fl || a == chunk
      ensures chunk in old(mem) && chunk + HEADER !in old(Blocks())
      ensures Blocks() == old(Blocks())[chunk + HEADER := old(mem[chunk].size)]
    {
      hide HeapOk, RemoveAt, Live, OnlyTiles, Marked, ListRemove;
      Reused(mem, base, limit, last, tiles, ch, fl, k);
      ReusedLive(mem, tiles, chunk);
      OnlyMarked(mem, tiles, chunk, false);
      ch := ListRemove(ch, chunk);
      mem := Marked(mem, chunk, false);
      fl := RemoveAt(fl, k);
    }

    /** A new chunk in memory not used so far. */
    method Extend(n: nat, alignment: nat) returns (p: nat, panic: bool, astray: bool)
      requires Valid() && PowerOfTwo(alignment) && 0 < alignment < U64
      requires CHUNK_MIN_SIZE <= n < 2 * CHUNK_MAX_SIZE && n % 8 == 0
      modifies this
      ensures panic <==> limit < old(EndAligned(alignment)) + n < U64
      ensures astray <==> old(EndAligned(alignment)) + n >= U64
      ensures !panic && !astray ==>
        && Valid() && p == old(EndAligned(alignment)) && p % alignment == 0
        && p !in old(Blocks()) && Blocks() == old(Blocks())[p := n] && p >= HEADER
        && (forall a :: a in old(fl) ==> a in fl)
        && tiles == old(tiles) + NewTiles(End(old(mem), base, old(tiles)), p - HEADER)
    {
      hide HeapOk, Live, End, AlignUp, PowerOfTwo, NewTiles, WithChunk, GrownChain, OnlyTiles;
      EndFromLast(mem, base, limit, last, tiles, ch, fl);
      var end := if last == NIL then base else last + HEADER + mem[last].size;
      AlignKeepsEight(end + HEADER, alignment);
      p, panic, astray := Aim(end, limit, alignment, n);
      if panic || astray {
        return;
      }
      GrownAll(mem, base, limit, last, tiles, ch, fl, p - HEADER, n);
      OnlyNewTiles(mem, tiles, end, p - HEADER, n);
      Place(end, p - HEADER, n);
    }

    /** The aligned address after `end`, and the test for room below `limit`. */
    static method Aim(end: nat, limit: nat, alignment: nat, n: nat) returns (p: nat, panic: bool, astray: bool)
      requires PowerOfTwo(alignment) && 0 < alignment < U64 && n < 2 * CHUNK_MAX_SIZE
      requires end <= limit && limit + HEADER < U64
      ensures panic <==> limit < AlignUp(end + HEADER, alignment) + n < U64
      ensures astray <==> AlignUp(end + HEADER, alignment) + n >= U64
      ensures !panic && !astray ==>
        p == AlignUp(end + HEADER, alignment) && p % alignment == 0 && p + n <= limit && end + HEADER <= p
    {
      hide AlignUp, Align64, PowerOfTwo;
      AlignWraps(end + HEADER, alignment, n);
      p := Align64(end + HEADER, alignment);
      WrapOnce(p + n);
      panic := (p + n) % U64 > limit;
      // the source asks nothing more
      astray := !panic && (p < end + HEADER || p + n >= U64);
    }

    /** The writes of a new chunk that fits; a panic leaves only those of the gap. */
    method Place(end: nat, aligned: nat, n: nat)
      requires end <= aligned
      modifies `mem, `ch, `fl, `last, `tiles
      ensures mem == WithChunk(old(mem), end, aligned, n) && ch == GrownChain(old(ch), end, aligned)
      ensures last == aligned && tiles == old(tiles) + NewTiles(end, aligned)
      ensures fl == (if GapChunk(end, aligned) then [end] + old(fl) else old(fl))
    {
      hide ListAddFront, NewTiles;
      WriteGap(end, aligned);
      mem := mem[aligned := Chunk(CHUNK_MAGIC, n, false)];
      ch := ch.(next := ch.next[aligned := NIL], prev := ch.prev[aligned := NIL]);
      last := aligned;
      tiles := tiles + NewTiles(end, aligned);
    }

    /** The room before an aligned chunk becomes a hole, or a free chunk if it is wide enough. */
    method WriteGap(end: nat, aligned: nat)
      requires end <= aligned
      modifies `mem, `ch, `fl
      ensures mem == WithGap(old(mem), end, aligned)
      ensures ch == (if GapChunk(end, aligned) then ListAddFront(old(ch), end) else old(ch))
      ensures fl == (if GapChunk(end, aligned) then [end] + old(fl) else old(fl))
    {
      if aligned != end {
        var gap := aligned - end;
        if gap < HEADER + CHUNK_MIN_SIZE {
          mem := mem[end := Hole(HOLE_MAGIC, gap)];
        } else {
          mem := mem[end := Chunk(CHUNK_MAGIC, gap - HEADER, true)];
          ch := ListAddFront(ch, end);
          fl := [end] + fl;
        }
      }
    }

    /** A chunk of this heap has its memory at `p`. */
    predicate IsChunk(p: nat)
      reads this
    { p >= HEADER && p - HEADER in mem && mem[p - HEADER].Chunk? }

    /** __kfree.  Freeing nothing, what is already free or what is no chunk changes nothing; the panics
        on a chunk that is linked and on a bad magic cannot happen.  `found` is what lies where the
        magic of a chunk would be, when `p` is not the memory of a chunk: when that is the magic all
        the same the source frees what is no chunk, and nothing is promised of that. */
    method Kfree(p: nat, found: nat) returns (panic: bool, astray: bool)
      requires Valid()
      modifies this
      ensures !astray ==> !panic && Valid() && tiles == old(tiles)
      ensures astray <==> p != NIL && !old(IsChunk(p)) && found == CHUNK_MAGIC
      ensures p in old(Blocks()) ==> !astray && fl == [p - HEADER] + old(fl) && Blocks() == old(Blocks()) - {p}
      ensures p !in old(Blocks()) && !astray ==> mem == old(mem) && fl == old(fl) && ch == old(ch)
    {
      hide HeapOk, Live, Tiled, End, OnlyTiles;
      panic, astray := false, false;
      NotChunkNotLive(mem, tiles, p);
      if p == NIL {
        return;
      }
      if IsChunk(p) {
        RecordedTile(mem, tiles, p - HEADER);
        ChunkFacts(mem, base, limit, last, tiles, ch, fl, p - HEADER);
      }
      var magic := if IsChunk(p) then mem[p - HEADER].magic else found;
      if magic != CHUNK_MAGIC {
        return;
      }
      if !IsChunk(p) {
        return false, true;
      }
      var chunk := p - HEADER;
      if mem[chunk].free {
        return;
      }
      if ch.next[chunk] != NIL || ch.prev[chunk] != NIL {
        return true, false;
      }
      panic := Release(chunk);
    }

    method Release(chunk: nat) returns (panic: bool)
      requires Valid() && chunk in tiles && chunk in mem && mem[chunk].Chunk? && !mem[chunk].free
      modifies this
      ensures !panic && Valid() && tiles == old(tiles) && fl == [chunk] + old(fl)
      ensures Blocks() == old(Blocks()) - {chunk + HEADER}
    {
      hide HeapOk, Live, Tiled, End, Marked, ListAddFront, Nth, OnlyTiles;
      ChunkFacts(mem, base, limit, last, tiles, ch, fl, chunk);
      ghost var i :| 0 <= i < |tiles| && tiles[i] == chunk;
      Freed(mem, base, limit, last, tiles, ch, fl, chunk);
      FreedLive(mem, tiles, chunk);
      MarkedTiled(mem, base, tiles, chunk, true);
      OnlyMarked(mem, tiles, chunk, true);
      mem := Marked(mem, chunk, true);
      var next;
      next, panic := GetNextChunk(chunk, i);
      ch := ListAddFront(ch, chunk);
      fl := [chunk] + fl;
    }
  }
}
