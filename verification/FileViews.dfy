/** Files and the views that splits make of them, kernel/mm/file.c. */
module FileViews {
  import opened Base
  import opened PgCacheModel
  import opened PgCaches

  datatype View = View(off: nat, size: nat)

  // ----- the views of one file -----

  /** The views lie side by side and cover what the file covered. */
  ghost predicate Tiles(views: seq<View>, off: nat, size: nat) {
    && views != [] && views[0].off == off
    && views[|views| - 1].off + views[|views| - 1].size == off + size
    && forall i :: 0 < i < |views| ==> views[i].off == views[i - 1].off + views[i - 1].size
  }

  /** vm_file_split and vm_file_merge on the view at `i`; a split past the end makes no view. */
  function SplitAt(views: seq<View>, i: nat, at: nat): seq<View>
    requires i < |views|
  {
    var v := views[i];
    if at >= v.size then views
    else views[..i] + [View(v.off, at), View(v.off + at, v.size - at)] + views[i + 1..]
  }

  function MergeAt(views: seq<View>, i: nat): seq<View>
    requires i + 1 < |views|
  {
    views[..i] + [View(views[i].off, views[i].size + views[i + 1].size)] + views[i + 2..]
  }

  lemma SplitTiles(views: seq<View>, off: nat, size: nat, i: nat, at: nat)
    requires Tiles(views, off, size) && i < |views|
    ensures Tiles(SplitAt(views, i, at), off, size)
  {
    var v, after := views[i], SplitAt(views, i, at);
    if at < v.size {
      forall k | 0 < k < |after|
        ensures after[k].off == after[k - 1].off + after[k - 1].size
      {
        assert k > i + 1 ==> after[k] == views[k - 1];
      }
    }
  }

  lemma MergeTiles(views: seq<View>, off: nat, size: nat, i: nat)
    requires Tiles(views, off, size) && i + 1 < |views|
    ensures Tiles(MergeAt(views, i), off, size)
  {
    var after := MergeAt(views, i);
    forall k | 0 < k < |after|
      ensures after[k].off == after[k - 1].off + after[k - 1].size
    {
      assert k > i ==> after[k] == views[k + 1];
    }
  }

  ghost predicate Owns(v: View, g: nat) { v.off <= g < v.off + v.size }

  lemma {:induction false} TilesBelow(views: seq<View>, off: nat, size: nat, i: nat, j: nat)
    requires Tiles(views, off, size) && i < j < |views|
    ensures views[i].off + views[i].size <= views[j].off
    decreases j
  {
    if i + 1 < j {
      TilesBelow(views, off, size, i, j - 1);
    }
  }

  lemma {:induction false} OwnerUpTo(views: seq<View>, off: nat, size: nat, g: nat, n: nat) returns (i: nat)
    requires Tiles(views, off, size) && 0 < n <= |views| && off <= g < views[n - 1].off + views[n - 1].size
    ensures i < n && Owns(views[i], g)
    decreases n
  {
    i := n - 1;
    if g < views[n - 1].off {
      i := OwnerUpTo(views, off, size, g, n - 1);
    }
  }

  /** Every offset of the file belongs to exactly one view. */
  lemma OneOwner(views: seq<View>, off: nat, size: nat, g: nat) returns (i: nat)
    requires Tiles(views, off, size) && off <= g < off + size
    ensures i < |views| && forall k :: 0 <= k < |views| ==> (Owns(views[k], g) <==> k == i)
  {
    i := OwnerUpTo(views, off, size, g, |views|);
    forall k | 0 <= k < |views|
      ensures Owns(views[k], g) <==> k == i
    {
      if k < i {
        TilesBelow(views, off, size, k, i);
      } else if i < k {
        TilesBelow(views, off, size, i, k);
      }
    }
  }

  // ----- the unsplit file -----

  /** What a read finds of page `n` in the pages read so far, and the pages after it: `missing` is
      what would be fetched, null when that fails, and is kept when there is room for it. */
  ghost function Found(pages: map<nat, Id>, room: nat, n: nat, missing: Id): Id {
    if n in pages then pages[n] else missing
  }

  ghost function Cached(pages: map<nat, Id>, room: nat, n: nat, missing: Id): map<nat, Id> {
    if n in pages || missing == NIL || n >= room then pages else pages[n := missing]
  }

  // ----- runs -----

  datatype Op = Split(i: nat, at: nat) | Merge(i: nat) | Read(i: nat, at: nat, missing: Id)

  ghost predicate Legal(views: seq<View>, op: Op) {
    match op
    case Split(i, _) => i < |views|
    case Merge(i) => i + 1 < |views|
    case Read(i, _, _) => i < |views|
  }

  ghost function Changed(views: seq<View>, op: Op): seq<View>
    requires Legal(views, op)
  {
    match op
    case Split(i, at) => SplitAt(views, i, at)
    case Merge(i) => MergeAt(views, i)
    case Read(_, _, _) => views
  }

  ghost predicate LegalRun(views: seq<View>, ops: seq<Op>)
    decreases |ops|
  {
    ops == [] || (Legal(views, ops[0]) && LegalRun(Changed(views, ops[0]), ops[1..]))
  }

  /** A read of the unsplit file: at which offset of it, and what would be fetched. */
  datatype Request = Request(g: nat, missing: Id)

  /** What the reads of a run ask of the unsplit file; a read past the end of its view asks nothing. */
  ghost function Requests(views: seq<View>, ops: seq<Op>): seq<Request>
    requires LegalRun(views, ops)
    decreases |ops|
  {
    if ops == [] then []
    else
      (match ops[0]
       case Read(i, at, missing) => if at < views[i].size then [Request(views[i].off + at, missing)] else []
       case _ => [])
      + Requests(Changed(views, ops[0]), ops[1..])
  }

  /** What the unsplit file answers, from the last request back. */
  ghost function Kept(pages: map<nat, Id>, room: nat, pgSize: nat, rs: seq<Request>): map<nat, Id>
    requires pgSize > 0
  {
    if rs == [] then pages
    else
      var r := rs[|rs| - 1];
      Cached(Kept(pages, room, pgSize, rs[..|rs| - 1]), room, PageOf(r.g, pgSize), r.missing)
  }

  ghost function Answer(pages: map<nat, Id>, room: nat, pgSize: nat, rs: seq<Request>, k: nat): Id
    requires pgSize > 0 && k < |rs|
  {
    Found(Kept(pages, room, pgSize, rs[..k]), room, PageOf(rs[k].g, pgSize), rs[k].missing)
  }

  /** Request `k` is the one that fetches its page. */
  ghost predicate Fetches(pages: map<nat, Id>, room: nat, pgSize: nat, rs: seq<Request>, k: nat)
    requires pgSize > 0 && k < |rs|
  {
    rs[k].missing != NIL && PageOf(rs[k].g, pgSize) !in Kept(pages, room, pgSize, rs[..k])
  }

  lemma {:induction false} KeptStays(pages: map<nat, Id>, room: nat, pgSize: nat, rs: seq<Request>, j: nat, n: nat)
    requires pgSize > 0 && j <= |rs| && n in Kept(pages, room, pgSize, rs[..j])
    ensures n in Kept(pages, room, pgSize, rs)
    ensures Kept(pages, room, pgSize, rs)[n] == Kept(pages, room, pgSize, rs[..j])[n]
    decreases |rs|
  {
    if j < |rs| {
      var front := rs[..|rs| - 1];
      assert front[..j] == rs[..j];
      KeptStays(pages, room, pgSize, front, j, n);
    } else {
      assert rs[..j] == rs;
    }
  }

  /** A page that fits in the cache is fetched at most once, and every later read gets that page. */
  lemma FetchedOnce(pages: map<nat, Id>, room: nat, pgSize: nat, rs: seq<Request>, j: nat, k: nat)
    requires pgSize > 0 && j < k < |rs| && PageOf(rs[j].g, pgSize) == PageOf(rs[k].g, pgSize) < room
    requires Fetches(pages, room, pgSize, rs, j)
    ensures !Fetches(pages, room, pgSize, rs, k)
    ensures Answer(pages, room, pgSize, rs, k) == Answer(pages, room, pgSize, rs, j) == rs[j].missing
  {
    var n := PageOf(rs[j].g, pgSize);
    assert rs[..j + 1][..j] == rs[..j];
    assert rs[..k][..j + 1] == rs[..j + 1];
    KeptStays(pages, room, pgSize, rs[..k], j + 1, n);
  }

  // ----- the files themselves -----

  class VmFile {
    var off: nat
    var size: nat
    const cache: PgCache

    constructor (off: nat, size: nat, cache: PgCache)
      ensures this.off == off && this.size == size && this.cache == cache
    {
      this.off, this.size, this.cache := off, size, cache;
    }

    function AsView(): View
      reads this
    { View(off, size) }

    /** vm_file_getpage; `missing` is what missing_page returns if it is called. */
    method GetPage(at: nat, missing: Id) returns (page: Id)
      requires cache.Valid()
      modifies cache
      ensures cache.Valid()
      ensures at >= size ==> page == NIL && cache.Contents() == old(cache.Contents())
      ensures at < size ==>
        var n := PageOf(off + at, cache.pgSize);
        && page == Found(old(cache.Contents()), Pow16(cache.order + 1), n, missing)
        && cache.Contents() == Cached(old(cache.Contents()), Pow16(cache.order + 1), n, missing)
    {
      hide Shape, Pages, Pow16, PageOf, CapacityOf;
      if at >= size {
        return NIL;
      }
      page := cache.Lookup(off + at);
      Stored(cache, off + at);
      if page == NIL {
        page := missing;
        if page != NIL {
          var dropped := cache.Insert(off + at, page);
        }
      }
    }

    /** vm_file_split: this file keeps what lies before `at`, the new one has the rest. */
    method Split(at: nat) returns (rest: VmFile?)
      requires cache.pgSize > 0 && at % cache.pgSize == 0
      modifies this
      ensures rest == null <==> at >= old(size)
      ensures rest == null ==> AsView() == old(AsView())
      ensures rest != null ==>
        && fresh(rest) && rest.cache == cache
        && AsView() == View(old(off), at) && rest.AsView() == View(old(off) + at, old(size) - at)
    {
      if at >= size {
        return null;
      }
      rest := new VmFile(off + at, size - at, cache);
      size := at;
    }

    /** vm_file_merge takes in the file that follows. */
    method Merge(other: VmFile)
      requires other != this && other.cache == cache
      modifies this
      ensures AsView() == View(old(off), old(size) + other.size)
    {
      size := size + other.size;
    }
  }

  lemma Stored(c: PgCache, at: nat)
    requires c.Valid()
    ensures Get(c.Contents(), PageOf(at, c.pgSize)) == NIL <==> PageOf(at, c.pgSize) !in c.Contents()
  {
    GetValue(c.nodes, c.order, c.layout, PageOf(at, c.pgSize));
  }

  ghost function Views(files: seq<VmFile>): seq<View>
    reads files
  { seq(|files|, i requires 0 <= i < |files| reads files => files[i].AsView()) }

  /** Different files of one cache. */
  ghost predicate Together(files: seq<VmFile>, c: PgCache) {
    && (forall i, j :: 0 <= i < j < |files| ==> files[i] != files[j])
    && forall i :: 0 <= i < |files| ==> files[i].cache == c
  }

  ghost predicate Aligned(ops: seq<Op>, pgSize: nat) {
    pgSize > 0 && forall k :: 0 <= k < |ops| && ops[k].Split? ==> ops[k].at % pgSize == 0
  }

  lemma OthersApart(files: seq<VmFile>, c: PgCache, i: nat)
    requires Together(files, c) && i < |files|
    ensures files[i].cache == c && forall k :: 0 <= k < |files| && k != i ==> files[k] != files[i]
  {
  }

  lemma TogetherMore(files: seq<VmFile>, c: PgCache, i: nat, rest: VmFile)
    requires Together(files, c) && i < |files| && rest.cache == c && rest !in files
    ensures Together(files[..i + 1] + [rest] + files[i + 1..], c)
  {
    var more := files[..i + 1] + [rest] + files[i + 1..];
    forall a, b | 0 <= a < b < |more|
      ensures more[a] != more[b]
    {
      assert a != i + 1 ==> more[a] == files[if a <= i then a else a - 1];
      assert b != i + 1 ==> more[b] == files[if b <= i then b else b - 1];
    }
  }

  method SplitFile(files: seq<VmFile>, c: PgCache, i: nat, at: nat) returns (more: seq<VmFile>)
    requires Together(files, c) && i < |files| && c.pgSize > 0 && at % c.pgSize == 0
    modifies files[i]
    ensures Together(more, c) && Views(more) == SplitAt(old(Views(files)), i, at)
    ensures forall k :: 0 <= k < |more| ==> more[k] in files || fresh(more[k])
  {
    hide Together;
    OthersApart(files, c, i);
    var rest := files[i].Split(at);
    if rest == null {
      more := files;
    } else {
      more := files[..i + 1] + [rest] + files[i + 1..];
      assert rest !in files;
      TogetherMore(files, c, i, rest);
    }
    ghost var want := SplitAt(old(Views(files)), i, at);
    assert |more| == |want|;
    forall k | 0 <= k < |want|
      ensures Views(more)[k] == want[k]
    {
      assert k < i ==> more[k] == files[k];
      assert k > i + 1 && rest != null ==> more[k] == files[k - 1];
      assert k > i && rest == null ==> more[k] == files[k];
    }
  }

  method MergeFile(files: seq<VmFile>, c: PgCache, i: nat) returns (fewer: seq<VmFile>)
    requires Together(files, c) && i + 1 < |files|
    modifies files[i]
    ensures Together(fewer, c) && Views(fewer) == MergeAt(old(Views(files)), i)
    ensures forall k :: 0 <= k < |fewer| ==> fewer[k] in files
  {
    files[i].Merge(files[i + 1]);
    fewer := files[..i + 1] + files[i + 2..];
    ghost var want := MergeAt(old(Views(files)), i);
    forall k | 0 <= k < |want|
      ensures Views(fewer)[k] == want[k]
    {
      assert k > i ==> fewer[k] == files[k + 1];
    }
  }

  /** The pages a run answers with and leaves in the cache are those of the unsplit file. */
  ghost predicate Agrees(was: map<nat, Id>, now: map<nat, Id>, room: nat, pgSize: nat, rs: seq<Request>, pages: seq<Id>)
    requires pgSize > 0
  {
    && |pages| <= |rs| && now == Kept(was, room, pgSize, rs[..|pages|])
    && forall k :: 0 <= k < |pages| ==> pages[k] == Answer(was, room, pgSize, rs, k)
  }

  lemma AgreesMore(was: map<nat, Id>, now: map<nat, Id>, room: nat, pgSize: nat, rs: seq<Request>, pages: seq<Id>)
    requires pgSize > 0 && Agrees(was, now, room, pgSize, rs, pages) && |pages| < |rs|
    ensures
      var r := rs[|pages|]; var n := PageOf(r.g, pgSize);
      Agrees(was, Cached(now, room, n, r.missing), room, pgSize, rs, pages + [Found(now, room, n, r.missing)])
  {
    assert rs[..|pages| + 1][..|pages|] == rs[..|pages|];
  }

  /** Any run of splits, merges of neighbours and reads, on the files of one cache: the reads answer
      as the unsplit file would, and the files go on covering what they covered. */
  method Run(files0: seq<VmFile>, c: PgCache, ops: seq<Op>) returns (files: seq<VmFile>, pages: seq<Id>)
    requires c.Valid() && Together(files0, c) && LegalRun(Views(files0), ops) && Aligned(ops, c.pgSize)
    modifies files0, c
    ensures c.Valid() && Together(files, c)
    ensures StillTiles(old(Views(files0)), Views(files))
    ensures |pages| == |Requests(old(Views(files0)), ops)|
    ensures var rs := Requests(old(Views(files0)), ops);
      Agrees(old(c.Contents()), c.Contents(), Pow16(c.order + 1), c.pgSize, rs, pages)
  {
    hide Shape, Pages, Pow16, PageOf, CapacityOf, Agrees, Tiles, StillTiles, Requests, LegalRun, Changed;
    files, pages := files0, [];
    ghost var rs := Requests(Views(files0), ops);
    ghost var room := Pow16(c.order + 1);
    AgreesStart(c.Contents(), room, c.pgSize, rs);
    StartTiles(Views(files0));
    assert ops[0..] == ops;
    var t := 0;
    while t < |ops|
      invariant 0 <= t <= |ops| && c.Valid() && Together(files, c)
      invariant forall i :: 0 <= i < |files| ==> files[i] in files0 || fresh(files[i])
      invariant LegalRun(Views(files), ops[t..])
      invariant |pages| <= |rs| && rs[|pages|..] == Requests(Views(files), ops[t..])
      invariant Agrees(old(c.Contents()), c.Contents(), room, c.pgSize, rs, pages)
      invariant StillTiles(old(Views(files0)), Views(files))
    {
      assert ops[t..][0] == ops[t] && ops[t..][1..] == ops[t + 1..];
      NextRequest(Views(files), ops[t..], rs, |pages|);
      ChangedTiles(old(Views(files0)), Views(files), ops[t]);
      files, pages := Perform(files, c, ops[t], old(c.Contents()), rs, pages);
      t := t + 1;
    }
    assert ops[t..] == [];
    NoRequests(Views(files), ops[t..]);
  }

  lemma NoRequests(views: seq<View>, ops: seq<Op>)
    requires ops == []
    ensures LegalRun(views, ops) && Requests(views, ops) == []
  {
  }

  ghost predicate StillTiles(views: seq<View>, views': seq<View>) {
    forall off, size :: Tiles(views, off, size) ==> Tiles(views', off, size)
  }

  lemma StartTiles(views: seq<View>)
    ensures StillTiles(views, views)
  {
  }

  lemma ChangedTiles(first: seq<View>, views: seq<View>, op: Op)
    requires Legal(views, op) && StillTiles(first, views)
    ensures StillTiles(first, Changed(views, op))
  {
    forall off, size | Tiles(first, off, size)
      ensures Tiles(Changed(views, op), off, size)
    {
      match op
      case Split(i, at) => SplitTiles(views, off, size, i, at);
      case Merge(i) => MergeTiles(views, off, size, i);
      case Read(_, _, _) =>
    }
  }

  lemma NextRequest(views: seq<View>, ops: seq<Op>, rs: seq<Request>, n: nat)
    requires ops != [] && LegalRun(views, ops) && n <= |rs| && rs[n..] == Requests(views, ops)
    ensures Legal(views, ops[0]) && LegalRun(Changed(views, ops[0]), ops[1..])
    ensures
      var op := ops[0];
      var m := n + if op.Read? && op.at < views[op.i].size then 1 else 0;
      && m <= |rs| && rs[m..] == Requests(Changed(views, op), ops[1..])
      && (m > n ==> rs[n] == Request(views[op.i].off + op.at, op.missing))
  {
    var op, rest := ops[0], Requests(Changed(views, ops[0]), ops[1..]);
    if op.Read? && op.at < views[op.i].size {
      var r := Request(views[op.i].off + op.at, op.missing);
      assert Requests(views, ops) == [r] + rest;
      assert rs[n] == rs[n..][0] && rs[n + 1..] == rs[n..][1..];
    } else {
      assert Requests(views, ops) == rest;
    }
  }

  lemma AgreesStart(was: map<nat, Id>, room: nat, pgSize: nat, rs: seq<Request>)
    requires pgSize > 0
    ensures Agrees(was, was, room, pgSize, rs, [])
  {
  }

  /** One operation of a run. */
  method Perform(files: seq<VmFile>, c: PgCache, op: Op, ghost was: map<nat, Id>, ghost rs: seq<Request>,
                 pages: seq<Id>)
    returns (files': seq<VmFile>, pages': seq<Id>)
    requires c.Valid() && Together(files, c) && Legal(Views(files), op)
    requires op.Split? ==> op.at % c.pgSize == 0
    requires Agrees(was, c.Contents(), Pow16(c.order + 1), c.pgSize, rs, pages)
    requires op.Read? && op.at < files[op.i].size ==>
      |pages| < |rs| && rs[|pages|] == Request(files[op.i].off + op.at, op.missing)
    modifies files, c
    ensures c.Valid() && Together(files', c)
    ensures forall i :: 0 <= i < |files'| ==> files'[i] in files || fresh(files'[i])
    ensures Views(files') == Changed(old(Views(files)), op)
    ensures |pages'| == |pages| + if op.Read? && op.at < old(files[op.i].size) then 1 else 0
    ensures Agrees(was, c.Contents(), Pow16(c.order + 1), c.pgSize, rs, pages')
  {
    hide Shape, Pages, Pow16, PageOf, CapacityOf, Agrees;
    files', pages' := files, pages;
    match op {
      case Split(i, at) => files' := SplitFile(files, c, i, at);
      case Merge(i) => files' := MergeFile(files, c, i);
      case Read(i, at, missing) =>
        if at < files[i].size {
          AgreesMore(was, c.Contents(), Pow16(c.order + 1), c.pgSize, rs, pages);
        }
        var page := files[i].GetPage(at, missing);
        if at < files[i].size {
          pages' := pages + [page];
        }
    }
  }
}
