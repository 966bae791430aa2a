/** The firmware's memory map in the boot loader's own format, boot/Memory.c. */
module MemoryMap {
  import opened Base

  datatype Kind = Unknown | Unusable | Usable | Reserved | Acpi | AcpiNvs | MappedIo | RuntimeCode | RuntimeData

  /** The kind of each of the firmware's memory types, by its number in the UEFI specification. */
  function KindOf(efi: nat): Kind {
    if efi == 8 then Unusable
    else if efi == 1 || efi == 2 || efi == 7 then Usable
    else if efi == 0 || efi == 3 || efi == 4 || efi == 12 || efi == 13 then Reserved
    else if efi == 9 then Acpi
    else if efi == 10 then AcpiNvs
    else if efi == 11 then MappedIo
    else if efi == 5 then RuntimeCode
    else if efi == 6 then RuntimeData
    else Unknown
  }

  /** A descriptor of the firmware's: a start address of 64 bits. */
  datatype Desc = Desc(efi: nat, start: nat, pages: nat)
  datatype Entry = Entry(kind: Kind, base: nat, size: nat)

  /** A page of memory of some kind, at an address of 64 bits. */
  datatype Page = Page(kind: Kind, addr: nat)

  function At(base: nat, i: nat): nat { (base + i * 0x1000) % U64 }

  function PagesOf(kind: Kind, base: nat, n: nat): seq<Page> {
    seq(n, i requires 0 <= i => Page(kind, At(base, i)))
  }

  function Described(ds: seq<Desc>): seq<Page> {
    if ds == [] then []
    else
      var d := ds[|ds| - 1];
      Described(ds[..|ds| - 1]) + PagesOf(KindOf(d.efi), d.start, d.pages)
  }

  function Listed(es: seq<Entry>): seq<Page> {
    if es == [] then []
    else
      var e := es[|es| - 1];
      Listed(es[..|es| - 1]) + PagesOf(e.kind, e.base, e.size / 0x1000)
  }

  predicate Joins(e: Entry, kind: Kind, start: nat) { e.kind == kind && (e.base + e.size) % U64 == start }

  /** One more descriptor on the list: nothing, a longer last entry or a new one. */
  function Added(es: seq<Entry>, d: Desc): seq<Entry> {
    if d.pages == 0 then es
    else if es != [] && Joins(es[|es| - 1], KindOf(d.efi), d.start) then
      es[|es| - 1 := es[|es| - 1].(size := es[|es| - 1].size + d.pages * 0x1000)]
    else es + [Entry(KindOf(d.efi), d.start, d.pages * 0x1000)]
  }

  /** The list with sizes that have no bound. */
  function Merged(ds: seq<Desc>): seq<Entry> {
    if ds == [] then [] else Added(Merged(ds[..|ds| - 1]), ds[|ds| - 1])
  }

  ghost predicate Addressed(ds: seq<Desc>) { forall k :: 0 <= k < |ds| ==> ds[k].start < U64 }

  /** Whole pages, at least one an entry, and no two neighbours that could be one. */
  ghost predicate Tight(es: seq<Entry>) {
    && (forall i :: 0 <= i < |es| ==> es[i].size > 0 && es[i].size % 0x1000 == 0 && es[i].base < U64)
    && forall i :: 0 < i < |es| ==> !Joins(es[i - 1], es[i].kind, es[i].base)
  }

  lemma PagesJoin(kind: Kind, base: nat, n: nat, m: nat)
    ensures PagesOf(kind, base, n + m) == PagesOf(kind, base, n) + PagesOf(kind, (base + n * 0x1000) % U64, m)
  {
    forall i | 0 <= i < m
      ensures (base + (n + i) * 0x1000) % U64 == ((base + n * 0x1000) % U64 + i * 0x1000) % U64
    {
      WrapSum(base + n * 0x1000, i * 0x1000);
    }
  }

  lemma WrapSum(a: nat, b: nat)
    ensures (a % U64 + b) % U64 == (a + b) % U64
  {
  }

  lemma AddedTight(es: seq<Entry>, d: Desc)
    requires Tight(es) && d.start < U64
    ensures Tight(Added(es, d)) && |es| <= |Added(es, d)|
  {
    hide KindOf, Joins;
    if es != [] {
      MorePages(es[|es| - 1].size, d.pages);
    }
    MorePages(0, d.pages);
  }

  lemma MorePages(size: nat, n: nat)
    requires size % 0x1000 == 0
    ensures (size + n * 0x1000) % 0x1000 == 0
  {
    ModUnique(size + n * 0x1000, 0x1000, size / 0x1000 + n, 0);
  }

  lemma Lengthened(es: seq<Entry>, e: Entry, n: nat)
    requires e.size % 0x1000 == 0
    ensures Listed(es + [e.(size := e.size + n * 0x1000)]) ==
      Listed(es + [e]) + PagesOf(e.kind, (e.base + e.size) % U64, n)
  {
    ListedMore(es, e);
    ListedMore(es, e.(size := e.size + n * 0x1000));
    hide Listed, PagesOf;
    PagesJoin(e.kind, e.base, e.size / 0x1000, n);
  }

  lemma ListedMore(es: seq<Entry>, e: Entry)
    ensures Listed(es + [e]) == Listed(es) + PagesOf(e.kind, e.base, e.size / 0x1000)
  {
    assert (es + [e])[..|es|] == es;
  }

  lemma NoPages(kind: Kind, base: nat)
    ensures PagesOf(kind, base, 0) == []
  {
  }

  lemma AddedPages(es: seq<Entry>, d: Desc)
    requires Tight(es)
    ensures Listed(Added(es, d)) == Listed(es) + PagesOf(KindOf(d.efi), d.start, d.pages)
  {
    hide KindOf, Listed, PagesOf;
    if d.pages == 0 {
      NoPages(KindOf(d.efi), d.start);
    } else if es != [] && Joins(es[|es| - 1], KindOf(d.efi), d.start) {
      var front, e := es[..|es| - 1], es[|es| - 1];
      Lengthened(front, e, d.pages);
      assert es == front + [e];
      assert Added(es, d) == front + [e.(size := e.size + d.pages * 0x1000)];
    } else {
      ListedMore(es, Entry(KindOf(d.efi), d.start, d.pages * 0x1000));
    }
  }

  /** The list holds the same pages, of the same kinds and in the same order, as the firmware's map. */
  lemma {:induction false} MergedOk(ds: seq<Desc>)
    requires Addressed(ds)
    ensures Tight(Merged(ds)) && Listed(Merged(ds)) == Described(ds)
  {
    if ds != [] {
      MergedOk(ds[..|ds| - 1]);
      AddedTight(Merged(ds[..|ds| - 1]), ds[|ds| - 1]);
      AddedPages(Merged(ds[..|ds| - 1]), ds[|ds| - 1]);
    }
  }

  lemma {:induction false} StoredGrows(ds: seq<Desc>, k: nat)
    requires k <= |ds|
    ensures |Stored(ds[..k])| <= |Stored(ds)|
    decreases |ds| - k
  {
    if k < |ds| {
      assert ds[..k + 1][..k] == ds[..k];
      StoredGrows(ds, k + 1);
    } else {
      assert ds[..k] == ds;
    }
  }

  /** Just before `end` come the `n` pages from `base` on. */
  ghost predicate EndsWith(pages: seq<Page>, end: nat, kind: Kind, base: nat, n: nat) {
    n <= end <= |pages| && forall j :: end - n <= j < end ==> pages[j] == Page(kind, At(base, j - (end - n)))
  }

  lemma LastPages(es: seq<Entry>)
    requires Tight(es) && es != []
    ensures
      var e := es[|es| - 1]; var n := e.size / 0x1000; var pages := Listed(es);
      && 0 < n && n * 0x1000 == e.size && e.base < U64 && EndsWith(pages, |pages|, e.kind, e.base, n)
      && n <= |pages| && pages[..|pages| - n] == Listed(es[..|es| - 1]) && Tight(es[..|es| - 1])
      && (|es| == 1 ==> n == |pages|) && (|es| > 1 ==> !Joins(es[|es| - 2], e.kind, e.base))
  {
    hide At, Joins, Listed;
    var front, e := es[..|es| - 1], es[|es| - 1];
    assert es == front + [e];
    ListedMore(front, e);
    PagesIn(e.size);
    if |es| == 1 {
      NoneListed();
    }
  }

  lemma PagesIn(size: nat)
    requires size > 0 && size % 0x1000 == 0
    ensures 0 < size / 0x1000 && size / 0x1000 * 0x1000 == size
  {
  }

  lemma EndsWithin(pages: seq<Page>, end: nat, kind: Kind, base: nat, n: nat)
    requires end <= |pages| && EndsWith(pages[..end], end, kind, base, n)
    ensures EndsWith(pages, end, kind, base, n)
  {
    hide At;
  }

  /** Two entries that end together, one shorter: the shorter joins what comes before it. */
  lemma Clash(pages: seq<Page>, end: nat, e: Entry, n: nat, f: Entry, m: nat, g: Entry, k: nat)
    requires 0 < n < m && 0 < k && EndsWith(pages, end, e.kind, e.base, n) && EndsWith(pages, end, f.kind, f.base, m)
    requires EndsWith(pages, end - n, g.kind, g.base, k) && e.base < U64
    ensures g.kind == e.kind && (g.base + k * 0x1000) % U64 == e.base
  {
    var x, y := g.base + (k - 1) * 0x1000, f.base + (m - n - 1) * 0x1000;
    assert pages[end - n] == Page(e.kind, At(e.base, 0)) == Page(f.kind, At(f.base, m - n));
    assert pages[end - n - 1] == Page(g.kind, At(g.base, k - 1)) == Page(f.kind, At(f.base, m - n - 1));
    WrapSum(x, 0x1000);
    WrapSum(y, 0x1000);
  }

  lemma {:induction false} Shorter(a: seq<Entry>, b: seq<Entry>)
    requires Tight(a) && Tight(b) && a != [] && b != [] && Listed(a) == Listed(b)
    ensures a[|a| - 1].size >= b[|b| - 1].size
  {
    hide Listed, Tight, EndsWith;
    LastPages(a);
    LastPages(b);
    var e, f, pages := a[|a| - 1], b[|b| - 1], Listed(a);
    var n, m := e.size / 0x1000, f.size / 0x1000;
    if n < m {
      EndsLong(pages, |pages|, f.kind, f.base, m);
      var front, g := a[..|a| - 1], a[|a| - 2];
      LastPages(front);
      EndsWithin(pages, |pages| - n, g.kind, g.base, g.size / 0x1000);
      Clash(pages, |pages|, e, n, f, m, g, g.size / 0x1000);
    }
  }

  lemma FirstPage(pages: seq<Page>, kind: Kind, base: nat, n: nat)
    requires 0 < n && base < U64 && EndsWith(pages, |pages|, kind, base, n)
    ensures n <= |pages| && pages[|pages| - n] == Page(kind, base)
  {
    assert At(base, 0) == base;
  }

  lemma NoneListed()
    ensures Listed([]) == []
  {
  }

  lemma EndsLong(pages: seq<Page>, end: nat, kind: Kind, base: nat, n: nat)
    requires EndsWith(pages, end, kind, base, n)
    ensures n <= end
  {
  }

  /** There is only one tight list of given pages. */
  lemma {:induction false} TightUnique(a: seq<Entry>, b: seq<Entry>)
    requires Tight(a) && Tight(b) && Listed(a) == Listed(b)
    ensures a == b
    decreases |a|
  {
    hide Listed, Tight, EndsWith, Joins;
    NoneListed();
    if a != [] {
      LastPages(a);
    }
    if b != [] {
      LastPages(b);
    }
    if a != [] && b != [] {
      Shorter(a, b);
      Shorter(b, a);
      var e, f, pages := a[|a| - 1], b[|b| - 1], Listed(a);
      FirstPage(pages, e.kind, e.base, e.size / 0x1000);
      FirstPage(pages, f.kind, f.base, f.size / 0x1000);
      TightUnique(a[..|a| - 1], b[..|b| - 1]);
      assert a == a[..|a| - 1] + [e] && b == b[..|b| - 1] + [f];
    }
  }

  // ----- sizes of 64 bits -----

  /** What the source stores: the sizes, and the sums that it compares, are of 64 bits. */
  function AddedWord(es: seq<Entry>, d: Desc): seq<Entry> {
    if d.pages == 0 then es
    else if es != [] && Joins(es[|es| - 1], KindOf(d.efi), d.start) then
      es[|es| - 1 := es[|es| - 1].(size := (es[|es| - 1].size + d.pages * 0x1000) % U64)]
    else es + [Entry(KindOf(d.efi), d.start, d.pages * 0x1000 % U64)]
  }

  function Stored(ds: seq<Desc>): seq<Entry> {
    if ds == [] then [] else AddedWord(Stored(ds[..|ds| - 1]), ds[|ds| - 1])
  }

  /** No run of pages of one kind is as long as the address space. */
  ghost predicate Bounded(es: seq<Entry>) { forall i :: 0 <= i < |es| ==> es[i].size < U64 }

  function Bytes(es: seq<Entry>): nat { if es == [] then 0 else Bytes(es[..|es| - 1]) + es[|es| - 1].size }

  lemma BytesMore(es: seq<Entry>, e: Entry)
    ensures Bytes(es + [e]) == Bytes(es) + e.size
  {
    assert (es + [e])[..|es|] == es;
  }

  /** A descriptor adds no more than its size, and less where a size does not fit. */
  lemma AddedBytes(es: seq<Entry>, d: Desc)
    ensures Bytes(AddedWord(es, d)) <= Bytes(es) + d.pages * 0x1000
    ensures Bounded(es) && !Bounded(Added(es, d)) ==> Bytes(AddedWord(es, d)) < Bytes(es) + d.pages * 0x1000
    ensures Bounded(Added(es, d)) ==> Bounded(es) && AddedWord(es, d) == Added(es, d)
  {
    hide KindOf, Bytes;
    if d.pages == 0 {
    } else if es != [] && Joins(es[|es| - 1], KindOf(d.efi), d.start) {
      var front, e := es[..|es| - 1], es[|es| - 1];
      var f, g := e.(size := (e.size + d.pages * 0x1000) % U64), e.(size := e.size + d.pages * 0x1000);
      assert es == front + [e] && AddedWord(es, d) == front + [f] && Added(es, d) == front + [g];
      BytesMore(front, e);
      BytesMore(front, f);
      LastBounded(front, e);
      LastBounded(front, g);
    } else {
      BytesMore(es, Entry(KindOf(d.efi), d.start, d.pages * 0x1000 % U64));
      LastBounded(es, Entry(KindOf(d.efi), d.start, d.pages * 0x1000));
    }
  }

  lemma LastBounded(es: seq<Entry>, e: Entry)
    ensures Bounded(es + [e]) <==> Bounded(es) && e.size < U64
  {
    assert (es + [e])[|es|] == e && forall i :: 0 <= i < |es| ==> (es + [e])[i] == es[i];
  }

  lemma {:induction false} StoredMerged(ds: seq<Desc>)
    ensures Bounded(Merged(ds)) ==> Stored(ds) == Merged(ds)
    ensures if Bounded(Merged(ds)) then Bytes(Stored(ds)) <= Total(ds) else Bytes(Stored(ds)) < Total(ds)
  {
    hide Added, AddedWord, Bounded;
    if ds == [] {
      NoneBounded();
    } else {
      var front, last := ds[..|ds| - 1], ds[|ds| - 1];
      StoredMerged(front);
      AddedBytes(Stored(front), last);
      AddedBytes(Merged(front), last);
    }
  }

  lemma NoneBounded()
    ensures Bounded([])
  {
  }

  lemma {:induction false} ListedBytes(es: seq<Entry>)
    requires forall i :: 0 <= i < |es| ==> es[i].size % 0x1000 == 0
    ensures |Listed(es)| * 0x1000 == Bytes(es)
  {
    if es != [] {
      ListedBytes(es[..|es| - 1]);
    }
  }

  lemma {:induction false} StoredWhole(ds: seq<Desc>)
    ensures forall i :: 0 <= i < |Stored(ds)| ==> Stored(ds)[i].size % 0x1000 == 0
  {
    hide KindOf, Joins;
    if ds != [] {
      var front, last := ds[..|ds| - 1], ds[|ds| - 1];
      StoredWhole(front);
      forall i | 0 <= i < |Stored(front)|
        ensures (Stored(front)[i].size + last.pages * 0x1000) % U64 % 0x1000 == 0
      {
        WholePages(Stored(front)[i].size, last.pages);
      }
      WholePages(0, last.pages);
    }
  }

  lemma WholePages(size: nat, n: nat)
    requires size % 0x1000 == 0
    ensures (size + n * 0x1000) % U64 % 0x1000 == 0
  {
    var q := size / 0x1000 + n;
    var r, m := q / 0x10_0000_0000_0000, q % 0x10_0000_0000_0000;
    assert q == 0x10_0000_0000_0000 * r + m;
    ModUnique(size + n * 0x1000, U64, r, m * 0x1000);
    ModUnique(m * 0x1000, 0x1000, m, 0);
  }

  /** What is stored lists the firmware's pages exactly when every run's size is one of 64 bits. */
  lemma StoredIff(ds: seq<Desc>)
    requires Addressed(ds)
    ensures Listed(Stored(ds)) == Described(ds) <==> Bounded(Merged(ds))
    ensures Bounded(Merged(ds)) ==> Stored(ds) == Merged(ds)
  {
    hide Listed, Described, Bounded, Stored, Merged, Bytes;
    MergedOk(ds);
    StoredMerged(ds);
    StoredWhole(ds);
    ListedBytes(Stored(ds));
    TotalOf(ds);
  }

  /** One run over the whole address space is stored as a run of nothing. */
  lemma WholeSpace()
    ensures var ds := [Desc(7, 0, 0x10_0000_0000_0000)];
      Stored(ds) == [Entry(Usable, 0, 0)] && Listed(Stored(ds)) == [] && |Described(ds)| == 0x10_0000_0000_0000
  {
    var ds := [Desc(7, 0, 0x10_0000_0000_0000)];
    assert ds[..0] == [] && Stored(ds[..0]) == [];
    assert Stored(ds) == [Entry(Usable, 0, 0)];
    ListedMore([], Entry(Usable, 0, 0));
    assert [] + [Entry(Usable, 0, 0)] == [Entry(Usable, 0, 0)];
  }

  // ----- the conversion -----

  const ENTRY_SIZE: nat := 24

  datatype Status = Success | BufferTooSmall

  lemma {:induction false} TotalOf(ds: seq<Desc>)
    ensures Total(ds) == |Described(ds)| * 0x1000
  {
    if ds != [] {
      TotalOf(ds[..|ds| - 1]);
    }
  }

  function Total(ds: seq<Desc>): nat {
    if ds == [] then 0 else Total(ds[..|ds| - 1]) + ds[|ds| - 1].pages * 0x1000
  }

  /** ConvertEfiMemoryMapToBootFormat.  `room` is the buffer as whole entries; the sizes that come
      back are those of the list in bytes and of all memory described, in 64 bits. */
  method ConvertMap(ds: seq<Desc>, room: array<Entry>) returns (status: Status, bytes: nat, total: nat)
    modifies room
    ensures status == Success <==> |Stored(ds)| <= room.Length
    ensures status == Success ==>
      && bytes == |Stored(ds)| * ENTRY_SIZE && room[..|Stored(ds)|] == Stored(ds)
      && total == |Described(ds)| * 0x1000 % U64
  {
    hide Described, AddedWord;
    forall i | 0 <= i < room.Length {
      room[i] := Entry(Unknown, 0, 0);
    }
    var n: nat, i: nat := 0, 0;
    total := 0;
    while i < |ds|
      invariant 0 <= i <= |ds| && n <= room.Length && room[..n] == Stored(ds[..i])
      invariant total == Total(ds[..i]) % U64
    {
      assert ds[..i + 1][..i] == ds[..i];
      StoredGrows(ds, i + 1);
      var ok;
      n, ok := Append(room, n, ds[i]);
      if !ok {
        return BufferTooSmall, 0, 0;
      }
      WrapSum(Total(ds[..i]), ds[i].pages * 0x1000);
      total := (total + ds[i].pages * 0x1000) % U64;
      i := i + 1;
    }
    assert ds[..i] == ds;
    TotalOf(ds);
    return Success, n * ENTRY_SIZE, total;
  }

  /** One turn of the loop: a descriptor of no pages is passed over. */
  method Append(room: array<Entry>, n: nat, d: Desc) returns (n': nat, ok: bool)
    requires n <= room.Length
    modifies room
    ensures ok <==> |AddedWord(old(room[..n]), d)| <= room.Length
    ensures ok ==> n' == |AddedWord(old(room[..n]), d)| && room[..n'] == AddedWord(old(room[..n]), d)
  {
    hide KindOf, Joins;
    n', ok := n, true;
    if d.pages == 0 {
      return;
    }
    if n > 0 && Joins(room[n - 1], KindOf(d.efi), d.start) {
      room[n - 1] := room[n - 1].(size := (room[n - 1].size + d.pages * 0x1000) % U64);
    } else if n >= room.Length {
      ok := false;
    } else {
      room[n] := Entry(KindOf(d.efi), d.start, d.pages * 0x1000 % U64);
      n' := n + 1;
    }
  }
}
