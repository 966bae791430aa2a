/** The kernel page tables that boot/Memory.c builds, and the walk the processor makes of them. */
module PageTables {
  import opened Base

  // flags of an entry
  const P: nat := 0x001
  const RW: nat := 0x002
  const PWT: nat := 0x008
  const PCD: nat := 0x010
  const S: nat := 0x080

  function Pml4(va: nat): (j: nat) ensures j < 512 { va / 0x80_0000_0000 % 512 }
  function Pdpt(va: nat): (j: nat) ensures j < 512 { va / 0x4000_0000 % 512 }
  function Pdt(va: nat): (j: nat) ensures j < 512 { va / 0x20_0000 % 512 }
  function Pt(va: nat): (j: nat) ensures j < 512 { va / 0x1000 % 512 }

  // ----- the walk of a four-level table -----

  datatype Walked = Fault | Lost | Mapped(phys: nat, writable: bool)

  /** The entry that an address selects in a table at `level`. */
  function Index(va: nat, level: nat): (j: nat)
    requires 1 <= level <= 4
    ensures j < 512
  {
    if level == 4 then Pml4(va) else if level == 3 then Pdpt(va) else if level == 2 then Pdt(va) else Pt(va)
  }

  /** Where an address lands in what a leaf at `level` maps. */
  function Landing(frame: nat, va: nat, level: nat): nat
    requires 1 <= level <= 3
  {
    if level == 3 then frame / 0x4000_0000 * 0x4000_0000 + va % 0x4000_0000
    else if level == 2 then frame / 0x20_0000 * 0x20_0000 + va % 0x20_0000
    else frame + va % 0x1000
  }

  predicate Present(e: nat) { e % 2 == 1 }
  predicate Writable(e: nat) { e / 2 % 2 == 1 }
  predicate Leaf(e: nat) { e / 128 % 2 == 1 }
  function Frame(e: nat): nat { e / 0x1000 % 0x100_0000_0000 * 0x1000 }

  /** Where the walk ends from the table at address `table`; lost when it leaves the eight tables
      that lie at `base`. */
  function WalkFrom(t: seq<nat>, base: nat, table: nat, va: nat, level: nat, rw: bool): Walked
    requires |t| == 4096 && 1 <= level <= 4
    decreases level
  {
    if !(base <= table < base + 8 * 0x1000 && (table - base) % 0x1000 == 0) then Lost
    else
      var e := t[(table - base) / 0x1000 * 512 + Index(va, level)];
      if !Present(e) then Fault
      else if level == 1 || (level < 4 && Leaf(e)) then
        Mapped(Landing(Frame(e), va, level), rw && Writable(e))
      else WalkFrom(t, base, Frame(e), va, level - 1, rw && Writable(e))
  }

  function Walk(t: seq<nat>, base: nat, va: nat): Walked
    requires |t| == 4096
  { WalkFrom(t, base, base, va, 4, true) }

  // ----- entries -----

  /** The low eleven bits of an address make room for the flags. */
  function Entry(addr: nat, flags: nat): nat { addr - addr % 0x800 + flags }

  lemma EntrySum(addr: nat, flags: nat)
    requires addr % 0x1000 == 0
    ensures Entry(addr, flags) == addr / 0x1000 * 0x1000 + flags
  {
    var q := addr / 0x1000;
    assert addr == q * 0x1000 && addr == 2 * q * 0x800;
  }

  lemma FrameOf(q: nat, flags: nat)
    requires q < 0x100_0000_0000 && flags < 0x800
    ensures Frame(q * 0x1000 + flags) == q * 0x1000
  {
    assert (q * 0x1000 + flags) / 0x1000 == q;
  }

  lemma BitsOf(q: nat, flags: nat)
    ensures Present(q * 0x1000 + flags) == Present(flags) && Writable(q * 0x1000 + flags) == Writable(flags)
    ensures Leaf(q * 0x1000 + flags) == Leaf(flags)
  {
    var x := q * 0x1000 + flags;
    ModUnique(x, 2, q * 0x800 + flags / 2, flags % 2);
    ModUnique(q * 0x800 + flags / 2, 2, q * 0x400 + flags / 2 / 2, flags / 2 % 2);
    ModUnique(x, 128, q * 32 + flags / 128, flags % 128);
    ModUnique(q * 32 + flags / 128, 2, q * 16 + flags / 128 / 2, flags / 128 % 2);
  }

  lemma EntryFields(addr: nat, flags: nat)
    requires addr % 0x1000 == 0 && addr < 0x10_0000_0000_0000 && flags < 0x800
    ensures Frame(Entry(addr, flags)) == addr && Present(Entry(addr, flags)) == Present(flags)
    ensures Writable(Entry(addr, flags)) == Writable(flags) && Leaf(Entry(addr, flags)) == Leaf(flags)
  {
    hide Entry, Frame, Present, Writable, Leaf;
    var q := addr / 0x1000;
    EntrySum(addr, flags);
    FrameOf(q, flags);
    BitsOf(q, flags);
  }

  // ----- the descriptors of the kernel image -----

  datatype Descriptor = Descriptor(phys: nat, virt: nat, numPages: nat, flags: nat)

  predicate PdWrite(f: nat) { f % 2 == 1 }
  predicate PdNoCache(f: nat) { f / 4 % 2 == 1 }
  predicate PdWriteThrough(f: nat) { f / 8 % 2 == 1 }
  predicate PdHuge(f: nat) { f / 16 % 2 == 1 || f / 32 % 2 == 1 }

  function EntryFlags(f: nat): (r: nat)
    ensures r < 0x800 && !Present(r) && (Writable(r) <==> PdWrite(f)) && (Leaf(r) <==> PdHuge(f))
  {
    (if PdWrite(f) then RW else 0) + (if PdNoCache(f) then PCD else 0)
    + (if PdWriteThrough(f) then PWT else 0) + (if PdHuge(f) then S else 0)
  }

  /** The entry of page `i` of a descriptor. */
  function PageEntry(d: Descriptor, i: nat): nat { Entry(d.phys + i * 0x1000, EntryFlags(d.flags) + P) }

  function EntriesOf(d: Descriptor): seq<nat> { seq(d.numPages, i requires 0 <= i => PageEntry(d, i)) }

  /** The entries of all pages, in the order of the list. */
  function AllEntries(ds: seq<Descriptor>): seq<nat> {
    if ds == [] then [] else EntriesOf(ds[0]) + AllEntries(ds[1..])
  }

  /** The search of the list for the descriptor that holds an address; 0 when there is none. */
  function Convert(ds: seq<Descriptor>, va: nat): nat {
    if ds == [] then 0
    else if ds[0].virt <= va < ds[0].virt + ds[0].numPages * 0x1000 then ds[0].phys + (va - ds[0].virt)
    else Convert(ds[1..], va)
  }

  method ConvertVirtToPhys(ds: seq<Descriptor>, va: nat) returns (phys: nat)
    ensures phys == Convert(ds, va)
    ensures forall k :: 0 <= k < |ds| && Holds(ds[k], va) && (forall j :: 0 <= j < k ==> !Holds(ds[j], va)) ==>
      phys == ds[k].phys + (va - ds[k].virt)
  {
    var i := 0;
    while i < |ds|
      invariant 0 <= i <= |ds| && Convert(ds, va) == Convert(ds[i..], va)
      invariant forall j :: 0 <= j < i ==> !Holds(ds[j], va)
    {
      assert ds[i..][1..] == ds[i + 1..];
      if ds[i].virt <= va && va < ds[i].virt + ds[i].numPages * 0x1000 {
        return ds[i].phys + (va - ds[i].virt);
      }
      i := i + 1;
    }
    return 0;
  }

  predicate Holds(d: Descriptor, va: nat) { d.virt <= va < d.virt + d.numPages * 0x1000 }

  /** Every descriptor starts where the one before it ends. */
  ghost predicate Contiguous(ds: seq<Descriptor>) {
    forall k :: 0 < k < |ds| ==> ds[k].virt == ds[k - 1].virt + ds[k - 1].numPages * 0x1000
  }

  ghost predicate Physical(ds: seq<Descriptor>) {
    forall k :: 0 <= k < |ds| ==>
      && ds[k].phys % 0x1000 == 0 && ds[k].phys + ds[k].numPages * 0x1000 <= 0x10_0000_0000_0000
      && !PdHuge(ds[k].flags)
  }

  /** The permission of the descriptor that holds an address. */
  ghost function MayWrite(ds: seq<Descriptor>, va: nat): bool {
    ds != [] && if Holds(ds[0], va) then PdWrite(ds[0].flags) else MayWrite(ds[1..], va)
  }

  lemma PageOf(virt: nat, phys: nat, n: nat, va: nat)
    requires virt % 0x1000 == 0 && phys % 0x1000 == 0 && virt <= va < virt + n * 0x1000
    ensures
      var i := (va - virt) / 0x1000;
      && i < n && va - virt == i * 0x1000 + va % 0x1000
      && (phys + i * 0x1000) % 0x1000 == 0 && phys + i * 0x1000 < phys + n * 0x1000
  {
  }

  lemma WithPresent(f: nat)
    requires !Present(f)
    ensures Present(f + P) && Writable(f + P) == Writable(f) && Leaf(f + P) == Leaf(f)
  {
    var g, h := f / 2, f / 128;
    ModUnique(f + 1, 2, g, 1);
    ModUnique(f + 1, 128, h, f % 128 + 1);
  }

  lemma EntryOfFirst(d: Descriptor, va: nat)
    requires Physical([d]) && d.virt % 0x1000 == 0 && Holds(d, va)
    ensures
      var i := (va - d.virt) / 0x1000;
      && i < d.numPages && Present(PageEntry(d, i)) && !Leaf(PageEntry(d, i))
      && (Writable(PageEntry(d, i)) <==> PdWrite(d.flags))
      && Frame(PageEntry(d, i)) + va % 0x1000 == d.phys + (va - d.virt)
  {
    hide Frame, Entry, Leaf, Writable, Present, PdWrite, PdHuge, EntryFlags;
    assert [d][0] == d;
    PageOf(d.virt, d.phys, d.numPages, va);
    var i := (va - d.virt) / 0x1000;
    var f := EntryFlags(d.flags);
    WithPresent(f);
    EntryFields(d.phys + i * 0x1000, f + P);
  }

  /** What the entry at a page's place in the list says is what the list says of its addresses. */
  lemma {:induction false} EntryAt(ds: seq<Descriptor>, va: nat)
    requires ds != [] && Contiguous(ds) && Physical(ds) && ds[0].virt % 0x1000 == 0
    requires ds[0].virt <= va < ds[0].virt + |AllEntries(ds)| * 0x1000
    ensures
      var e := AllEntries(ds)[(va - ds[0].virt) / 0x1000];
      && Present(e) && (Writable(e) <==> MayWrite(ds, va)) && !Leaf(e)
      && Frame(e) + va % 0x1000 == Convert(ds, va)
  {
    hide Frame, Entry, EntryFlags, Leaf, Writable, Present, PdWrite, Physical, Contiguous, PageEntry;
    var d := ds[0];
    var i := (va - d.virt) / 0x1000;
    TailFacts(ds);
    if Holds(d, va) {
      EntryOfFirst(d, va);
      assert EntriesOf(d)[i] == PageEntry(d, i);
    } else {
      PastFirst(ds, va);
      EntryAt(ds[1..], va);
    }
  }

  lemma TailFacts(ds: seq<Descriptor>)
    requires ds != [] && Contiguous(ds) && Physical(ds)
    ensures Physical([ds[0]]) && Physical(ds[1..]) && Contiguous(ds[1..])
    ensures |ds| > 1 ==> ds[1..][0].virt == ds[0].virt + ds[0].numPages * 0x1000
  {
    hide PdHuge;
    assert forall k :: 0 <= k < |ds| - 1 ==> ds[1..][k] == ds[k + 1];
  }

  lemma PastFirst(ds: seq<Descriptor>, va: nat)
    requires |ds| > 1 ==> ds[1..][0].virt == ds[0].virt + ds[0].numPages * 0x1000
    requires ds != [] && ds[0].virt % 0x1000 == 0 && !Holds(ds[0], va)
    requires ds[0].virt <= va < ds[0].virt + |AllEntries(ds)| * 0x1000
    ensures ds[1..] != [] && ds[1..][0].virt % 0x1000 == 0
    ensures ds[1..][0].virt <= va < ds[1..][0].virt + |AllEntries(ds[1..])| * 0x1000
    ensures AllEntries(ds)[(va - ds[0].virt) / 0x1000] == AllEntries(ds[1..])[(va - ds[1..][0].virt) / 0x1000]
  {
    hide AllEntries, EntriesOf;
    var first, rest := EntriesOf(ds[0]), AllEntries(ds[1..]);
    FirstEntries(ds);
    PastPage(ds[0].virt, ds[0].numPages, |rest|, va);
    assert |ds| > 1 by {
      if |ds| == 1 {
        NoEntries();
      }
    }
  }

  lemma NoEntries()
    ensures AllEntries([]) == []
  {
  }

  lemma FirstEntries(ds: seq<Descriptor>)
    requires ds != []
    ensures AllEntries(ds) == EntriesOf(ds[0]) + AllEntries(ds[1..]) && |EntriesOf(ds[0])| == ds[0].numPages
  {
  }

  lemma PastPage(virt: nat, n: nat, m: nat, va: nat)
    requires virt % 0x1000 == 0 && virt + n * 0x1000 <= va < virt + (n + m) * 0x1000
    ensures m > 0 && (virt + n * 0x1000) % 0x1000 == 0 && va < virt + n * 0x1000 + m * 0x1000
    ensures (va - virt) / 0x1000 == n + (va - (virt + n * 0x1000)) / 0x1000 && (va - virt) / 0x1000 < n + m
  {
  }

  // ----- what the tables hold -----

  function To(base: nat, table: nat, flags: nat): nat { Entry(base + table * 0x1000, flags) }

  /** Entry `j` of the PML4, which the kernel shares with the identity map. */
  function TopEntry(base: nat, kernel: nat, j: nat): nat {
    if j == Pml4(kernel) then To(base, 4, RW + P) else if j == 0 then To(base, 1, RW + P) else 0
  }

  /** Entry `j` of the PDPT, the PDT and the PT of the identity map. */
  function LowerEntry(base: nat, table: nat, j: nat): nat {
    if table == 1 then
      if j == 0 then To(base, 2, RW + P) else if j < 4 then Entry(j * 0x4000_0000, S + RW + P) else 0
    else if table == 2 then
      if j == 0 then To(base, 3, RW + P) else Entry(j * 0x20_0000, S + RW + P)
    else
      if j == 0 then 0 else Entry(j * 0x1000, RW + P)
  }

  /** Entry `j` of the PDPT and the PDT of the kernel. */
  function UpperEntry(base: nat, kernel: nat, table: nat, j: nat): nat {
    if table == 4 then
      if j == Pdpt(kernel) then To(base, 5, RW + P) else 0
    else
      if j == Pdt(kernel) then To(base, 6, RW + P) else if j == Pdt(kernel) + 1 then To(base, 7, RW + P) else 0
  }

  /** Entry `m` of the two last tables side by side: `es` from the kernel's place on. The second
      link of a kernel in the last entry of its PDT lands in the first of them. */
  function PageSlot(base: nat, kernel: nat, es: seq<nat>, m: nat): nat {
    if Pt(kernel) <= m < Pt(kernel) + |es| then es[m - Pt(kernel)]
    else if m == 0 && Pdt(kernel) == 511 then To(base, 7, RW + P)
    else 0
  }

  function Slot(base: nat, kernel: nat, es: seq<nat>, i: nat): nat {
    if i < 512 then TopEntry(base, kernel, i)
    else if i < 2048 then LowerEntry(base, i / 512, i % 512)
    else if i < 3072 then UpperEntry(base, kernel, i / 512, i % 512)
    else PageSlot(base, kernel, es, i - 3072)
  }

  ghost predicate Built(t: seq<nat>, base: nat, kernel: nat, es: seq<nat>) {
    |t| == 4096 && forall i :: 0 <= i < 4096 ==> t[i] == Slot(base, kernel, es, i)
  }

  // ----- the walk of what is built -----

  ghost predicate Sound(base: nat, kernel: nat, es: seq<nat>) {
    && base % 0x1000 == 0 && base + 0x8000 <= 0x10_0000_0000_0000
    && Pt(kernel) + |es| <= 1024
  }

  /** Pages that the kernel's PDT entries reach. */
  predicate Fits(kernel: nat, n: nat) { Pt(kernel) + n <= if Pdt(kernel) < 511 then 1024 else 512 }

  lemma StepAt(t: seq<nat>, base: nat, table: nat, va: nat, level: nat, rw: bool)
    requires |t| == 4096 && table < 8 && 1 <= level <= 4
    ensures var e := t[table * 512 + Index(va, level)];
      WalkFrom(t, base, base + table * 0x1000, va, level, rw) ==
      if !Present(e) then Fault
      else if level == 1 || (level < 4 && Leaf(e)) then
        Mapped(Landing(Frame(e), va, level), rw && Writable(e))
      else WalkFrom(t, base, Frame(e), va, level - 1, rw && Writable(e))
  {
    hide Frame, Present, Writable, Leaf, Index, Landing;
    assert (base + table * 0x1000 - base) / 0x1000 == table;
  }

  lemma LinkFields(base: nat, table: nat)
    requires base % 0x1000 == 0 && table < 8 && base + 0x8000 <= 0x10_0000_0000_0000
    ensures var e := To(base, table, RW + P); Frame(e) == base + table * 0x1000 && Present(e) && Writable(e) && !Leaf(e)
  {
    hide Frame;
    assert (base + table * 0x1000) % 0x1000 == 0;
    EntryFields(base + table * 0x1000, RW + P);
  }

  /** An entry that leads to another of the tables. */
  lemma StepTo(t: seq<nat>, base: nat, table: nat, next: nat, va: nat, level: nat)
    requires |t| == 4096 && table < 8 && next < 8 && 2 <= level <= 4
    requires base % 0x1000 == 0 && base + 0x8000 <= 0x10_0000_0000_0000
    requires t[table * 512 + Index(va, level)] == To(base, next, RW + P)
    ensures WalkFrom(t, base, base + table * 0x1000, va, level, true) ==
      WalkFrom(t, base, base + next * 0x1000, va, level - 1, true)
  {
    hide Frame, To, Present, Writable, Leaf, Index, Landing, WalkFrom;
    LinkFields(base, next);
    StepAt(t, base, table, va, level, true);
  }

  /** An entry of the identity map. */
  lemma StepLeaf(t: seq<nat>, base: nat, table: nat, va: nat, level: nat, addr: nat, flags: nat)
    requires |t| == 4096 && table < 8 && 1 <= level <= 3 && addr % 0x1000 == 0 && addr < 0x10_0000_0000_0000
    requires flags == (if level == 1 then RW + P else S + RW + P)
    requires t[table * 512 + Index(va, level)] == Entry(addr, flags)
    ensures WalkFrom(t, base, base + table * 0x1000, va, level, true) == Mapped(Landing(addr, va, level), true)
  {
    hide Frame, Entry, Present, Writable, Leaf, Index, Landing, WalkFrom;
    EntryFields(addr, flags);
    LeafFlags();
    StepAt(t, base, table, va, level, true);
  }

  lemma LeafFlags()
    ensures Present(RW + P) && Writable(RW + P) && Present(S + RW + P) && Writable(S + RW + P) && Leaf(S + RW + P)
  {
  }

  lemma Zero()
    ensures !Present(0)
  {
  }

  lemma LowLanding(va: nat)
    ensures Pdpt(va) >= 4 <==> va % 0x80_0000_0000 >= 0x1_0000_0000
    ensures Pdpt(va) == 0 && Pdt(va) == 0 && Pt(va) == 0 <==> va % 0x80_0000_0000 < 0x1000
    ensures Landing(Pdpt(va) * 0x4000_0000, va, 3) == va % 0x80_0000_0000
    ensures Pdpt(va) == 0 ==> Landing(Pdt(va) * 0x20_0000, va, 2) == va % 0x80_0000_0000
    ensures Pdpt(va) == 0 && Pdt(va) == 0 ==> Landing(Pt(va) * 0x1000, va, 1) == va % 0x80_0000_0000
  {
    Digit12(va);
    Digit21(va);
    Digit30(va);
    hide Pdpt, Pdt, Pt;
  }

  /** The first four gigabytes, less the first page, map to themselves. */
  lemma LowerWalk(t: seq<nat>, base: nat, kernel: nat, es: seq<nat>, va: nat)
    requires Built(t, base, kernel, es) && Sound(base, kernel, es) && Pml4(va) == 0 && Pml4(kernel) != 0
    ensures Walk(t, base, va) ==
      if 0x1000 <= va % 0x80_0000_0000 < 0x1_0000_0000 then Mapped(va % 0x80_0000_0000, true) else Fault
  {
    hide Entry, Present, Writable, Leaf, Frame, WalkFrom, Landing, Pml4, Pdpt, Pdt, Pt;
    Zero();
    LowLanding(va);
    assert t[Pml4(va)] == TopEntry(base, kernel, 0);
    StepTo(t, base, 0, 1, va, 4);
    assert t[512 + Pdpt(va)] == LowerEntry(base, 1, Pdpt(va));
    if Pdpt(va) >= 4 {
      StepAt(t, base, 1, va, 3, true);
    } else if Pdpt(va) > 0 {
      StepLeaf(t, base, 1, va, 3, Pdpt(va) * 0x4000_0000, S + RW + P);
    } else {
      StepTo(t, base, 1, 2, va, 3);
      assert t[1024 + Pdt(va)] == LowerEntry(base, 2, Pdt(va));
      if Pdt(va) > 0 {
        StepLeaf(t, base, 2, va, 2, Pdt(va) * 0x20_0000, S + RW + P);
      } else {
        StepTo(t, base, 2, 3, va, 2);
        assert t[1536 + Pt(va)] == LowerEntry(base, 3, Pt(va));
        if Pt(va) > 0 {
          StepLeaf(t, base, 3, va, 1, Pt(va) * 0x1000, RW + P);
        } else {
          StepAt(t, base, 3, va, 1, true);
        }
      }
    }
  }

  lemma Digit12(va: nat)
    ensures va % 0x20_0000 == Pt(va) * 0x1000 + va % 0x1000
  {
    var a := va / 0x1000;
    ModUnique(va, 0x20_0000, a / 512, a % 512 * 0x1000 + va % 0x1000);
  }

  lemma Digit21(va: nat)
    ensures va % 0x4000_0000 == Pdt(va) * 0x20_0000 + va % 0x20_0000
  {
    var a := va / 0x20_0000;
    ModUnique(va, 0x4000_0000, a / 512, a % 512 * 0x20_0000 + va % 0x20_0000);
  }

  lemma Digit30(va: nat)
    ensures va % 0x80_0000_0000 == Pdpt(va) * 0x4000_0000 + va % 0x4000_0000
  {
    var a := va / 0x4000_0000;
    ModUnique(va, 0x80_0000_0000, a / 512, a % 512 * 0x4000_0000 + va % 0x4000_0000);
  }

  lemma Digit39(va: nat)
    ensures va % 0x1_0000_0000_0000 == Pml4(va) * 0x80_0000_0000 + va % 0x80_0000_0000
  {
    var a := va / 0x80_0000_0000;
    ModUnique(va, 0x1_0000_0000_0000, a / 512, a % 512 * 0x80_0000_0000 + va % 0x80_0000_0000);
  }

  /** The page of an address, counted from the start of the 48 bits that a walk looks at. */
  function PageNo(va: nat): nat { va % 0x1_0000_0000_0000 / 0x1000 }

  lemma Digits(va: nat)
    ensures PageNo(va) == ((Pml4(va) * 512 + Pdpt(va)) * 512 + Pdt(va)) * 512 + Pt(va)
    ensures va % 0x1_0000_0000_0000 == PageNo(va) * 0x1000 + va % 0x1000
  {
    Digit12(va);
    Digit21(va);
    Digit30(va);
    Digit39(va);
  }

  /** Under the kernel's PML4 entry the walk ends in one of the two last tables, or nowhere. */
  lemma WindowWalk(t: seq<nat>, base: nat, kernel: nat, es: seq<nat>, va: nat)
    requires Built(t, base, kernel, es) && Sound(base, kernel, es) && Pml4(va) == Pml4(kernel)
    ensures Walk(t, base, va) ==
      if Pdpt(va) == Pdpt(kernel) && Pdt(kernel) <= Pdt(va) <= Pdt(kernel) + 1 then
        var e := PageSlot(base, kernel, es, (Pdt(va) - Pdt(kernel)) * 512 + Pt(va));
        if Present(e) then Mapped(Frame(e) + va % 0x1000, Writable(e)) else Fault
      else Fault
  {
    hide Entry, Present, Writable, Leaf, Frame, WalkFrom, Pml4, Pdpt, Pdt, Pt, PageSlot;
    Zero();
    assert t[Pml4(va)] == TopEntry(base, kernel, Pml4(va));
    StepTo(t, base, 0, 4, va, 4);
    assert t[2048 + Pdpt(va)] == UpperEntry(base, kernel, 4, Pdpt(va));
    if Pdpt(va) != Pdpt(kernel) {
      StepAt(t, base, 4, va, 3, true);
    } else {
      StepTo(t, base, 4, 5, va, 3);
      assert t[2560 + Pdt(va)] == UpperEntry(base, kernel, 5, Pdt(va));
      if Pdt(kernel) <= Pdt(va) <= Pdt(kernel) + 1 {
        var n := Pdt(va) - Pdt(kernel);
        StepTo(t, base, 5, 6 + n, va, 2);
        StepAt(t, base, 6 + n, va, 1, true);
        assert t[(6 + n) * 512 + Pt(va)] == PageSlot(base, kernel, es, n * 512 + Pt(va));
      } else {
        StepAt(t, base, 5, va, 2, true);
      }
    }
  }

  /** The page at which a kernel in the last entry of its PDT has a table in place of nothing. */
  predicate Stray(kernel: nat, va: nat) { Pdt(kernel) == 511 && PageNo(va) == PageNo(kernel) - Pt(kernel) }

  /** The kernel's page `p` is found where its PDT entries reach. */
  lemma PageWalk(t: seq<nat>, base: nat, kernel: nat, es: seq<nat>, va: nat, p: nat)
    requires Built(t, base, kernel, es) && Sound(base, kernel, es) && Pml4(va) == Pml4(kernel)
    requires p < |es| && Fits(kernel, p + 1) && PageNo(va) == PageNo(kernel) + p
    ensures Walk(t, base, va) == if Present(es[p]) then Mapped(Frame(es[p]) + va % 0x1000, Writable(es[p])) else Fault
  {
    Digits(va);
    Digits(kernel);
    hide Entry, Present, Writable, Leaf, Frame, Walk, To, PageNo, Pml4, Pdpt, Pdt, Pt;
    WindowWalk(t, base, kernel, es, va);
  }

  /** An address on one of the kernel's pages is found there, and one on none is not mapped. */
  lemma UpperWalk(t: seq<nat>, base: nat, kernel: nat, es: seq<nat>, va: nat)
    requires Built(t, base, kernel, es) && Sound(base, kernel, es) && Pml4(va) == Pml4(kernel) && Fits(kernel, |es|)
    ensures
      if PageNo(kernel) <= PageNo(va) < PageNo(kernel) + |es| then
        var e := es[PageNo(va) - PageNo(kernel)];
        Walk(t, base, va) == if Present(e) then Mapped(Frame(e) + va % 0x1000, Writable(e)) else Fault
      else Walk(t, base, va) == if Stray(kernel, va) then Mapped(base + 0x7000 + va % 0x1000, true) else Fault
  {
    Digits(va);
    Digits(kernel);
    hide Entry, Present, Writable, Leaf, Frame, Walk, To, PageNo, Pml4, Pdpt, Pdt, Pt;
    Zero();
    LinkFields(base, 7);
    WindowWalk(t, base, kernel, es, va);
  }

  ghost predicate Canonical(va: nat) {
    va < 0x8000_0000_0000 || 0xFFFF_8000_0000_0000 <= va < 0x1_0000_0000_0000_0000
  }

  lemma LowOf(va: nat)
    requires Canonical(va)
    ensures va == va % 0x1_0000_0000_0000 + if va < 0x8000_0000_0000 then 0 else 0xFFFF_0000_0000_0000
  {
    if va >= 0x8000_0000_0000 {
      assert va == 0xFFFF * 0x1_0000_0000_0000 + (va - 0xFFFF_0000_0000_0000);
    }
  }

  lemma HalfOf(va: nat)
    requires Canonical(va)
    ensures va == PageNo(va) * 0x1000 + va % 0x1000 + if Pml4(va) >= 256 then 0xFFFF_0000_0000_0000 else 0
  {
    LowOf(va);
    Digits(va);
    Digit39(va);
    hide Pml4, PageNo;
  }

  /** The kernel's pages lie under one entry of the PML4. */
  lemma SameTop(kernel: nat, n: nat, va: nat)
    requires kernel % 0x1000 == 0 && Fits(kernel, n)
    requires kernel <= va < kernel + n * 0x1000
    ensures Pml4(va) == Pml4(kernel)
  {
    Digit12(kernel);
    Digit21(kernel);
    Digit30(kernel);
    hide Pdpt, Pdt, Pt;
    var r := kernel % 0x80_0000_0000;
    assert r == Pdpt(kernel) * 0x4000_0000 + Pdt(kernel) * 0x20_0000 + Pt(kernel) * 0x1000;
    SameQuotient(kernel, va - kernel);
  }

  lemma SameQuotient(a: nat, d: nat)
    requires a % 0x80_0000_0000 + d < 0x80_0000_0000
    ensures (a + d) / 0x80_0000_0000 == a / 0x80_0000_0000
  {
  }

  lemma KernelPage(kernel: nat, n: nat, va: nat)
    requires kernel % 0x1000 == 0 && Fits(kernel, n) && Canonical(kernel) && Canonical(va)
    ensures kernel <= va < kernel + n * 0x1000 <==>
      Pml4(va) == Pml4(kernel) && PageNo(kernel) <= PageNo(va) < PageNo(kernel) + n
    ensures kernel <= va < kernel + n * 0x1000 ==> (va - kernel) / 0x1000 == PageNo(va) - PageNo(kernel)
  {
    if kernel <= va < kernel + n * 0x1000 {
      SameTop(kernel, n, va);
    }
    HalfOf(va);
    HalfOf(kernel);
    hide Pml4, Pdt, Pt, PageNo, Canonical, Fits;
  }

  lemma OtherTop(t: seq<nat>, base: nat, kernel: nat, es: seq<nat>, va: nat)
    requires Built(t, base, kernel, es) && Pml4(va) != Pml4(kernel) && Pml4(va) != 0
    ensures Walk(t, base, va) == Fault
  {
    hide Entry, Present, Writable, Leaf, Frame, WalkFrom, Pml4;
    Zero();
    assert t[Pml4(va)] == TopEntry(base, kernel, Pml4(va));
    StepAt(t, base, 0, va, 4, true);
  }

  /** What a walk of the finished tables finds at any address: the kernel's pages where its list of
      descriptors puts them, writable as the list says; the first four gigabytes less a page where
      they are, unless the kernel is under the same PML4 entry; and nothing else, but for the stray
      page. */
  lemma KernelMap(t: seq<nat>, base: nat, ds: seq<Descriptor>, va: nat)
    requires ds != [] && Contiguous(ds) && Physical(ds) && ds[0].virt % 0x1000 == 0
    requires Canonical(ds[0].virt) && Canonical(va) && Sound(base, ds[0].virt, AllEntries(ds))
    requires Built(t, base, ds[0].virt, AllEntries(ds)) && Fits(ds[0].virt, |AllEntries(ds)|)
    ensures Walk(t, base, va) ==
      if ds[0].virt <= va < ds[0].virt + |AllEntries(ds)| * 0x1000 then Mapped(Convert(ds, va), MayWrite(ds, va))
      else if Stray(ds[0].virt, va) then Mapped(base + 0x7000 + va % 0x1000, true)
      else if 0x1000 <= va < 0x1_0000_0000 && Pml4(ds[0].virt) != 0 then Mapped(va, true)
      else Fault
  {
    hide AllEntries, Convert, MayWrite, Contiguous, Physical, Pml4, Pdpt, Pdt, Pt, PageNo, Walk, Built, Canonical,
      Frame, Writable, Present, Leaf, Fits;
    var kernel, es := ds[0].virt, AllEntries(ds);
    TopOf(va);
    if Stray(kernel, va) {
      StrayTop(kernel, va);
    }
    KernelPage(kernel, |es|, va);
    if kernel <= va < kernel + |es| * 0x1000 {
      EntryAt(ds, va);
    }
    if Pml4(va) == Pml4(kernel) {
      UpperWalk(t, base, kernel, es, va);
    } else if Pml4(va) == 0 {
      LowerWalk(t, base, kernel, es, va);
    } else {
      OtherTop(t, base, kernel, es, va);
    }
  }

  lemma StrayTop(kernel: nat, va: nat)
    requires Stray(kernel, va)
    ensures Pml4(va) == Pml4(kernel)
  {
    Digits(va);
    Digits(kernel);
    hide Pml4, Pdpt, Pdt, Pt, PageNo;
    SameDigits(Pml4(va), Pdpt(va), Pdt(va), Pt(va), Pml4(kernel), Pdpt(kernel), Pdt(kernel));
  }

  lemma SameDigits(a: nat, b: nat, c: nat, d: nat, e: nat, f: nat, g: nat)
    requires b < 512 && c < 512 && d < 512 && f < 512 && g < 512
    requires ((a * 512 + b) * 512 + c) * 512 + d == ((e * 512 + f) * 512 + g) * 512
    ensures a == e && b == f && c == g && d == 0
  {
  }

  lemma TopOf(va: nat)
    requires Canonical(va)
    ensures Pml4(va) == 0 <==> va < 0x80_0000_0000
    ensures Pml4(va) == 0 ==> va % 0x80_0000_0000 == va
  {
  }

  // ----- building the tables -----

  /** What a slot holds once `n` entries, one every `stride` bytes, are written `k` slots before it. */
  function Overlay(was: nat, k: int, n: nat, phys: nat, stride: nat, flags: nat): nat {
    if 0 <= k < n then Entry(phys + k * stride, flags) else was
  }

  method FillTable(t: array<nat>, table: nat, start: nat, n: nat, phys: nat, stride: nat, flags: nat)
    requires t.Length == 4096 && table < 8 && (n > 0 ==> start + n <= 512)
    modifies t
    ensures forall i :: 0 <= i < 4096 ==>
      t[i] == Overlay(old(t[i]), i - (table * 512 + start), n, phys, stride, flags)
  {
    hide Entry;
    if n == 0 {
      return;
    }
    var addr := phys;
    for j := start to start + n
      invariant addr == phys + (j - start) * stride
      invariant forall i :: 0 <= i < 4096 ==>
        t[i] == Overlay(old(t[i]), i - (table * 512 + start), j - start, phys, stride, flags)
    {
      t[table * 512 + j] := Entry(addr, flags);
      addr := addr + stride;
    }
  }

  /** The PDPT, the PDT and the PT of the identity map. */
  method WriteLower(t: array<nat>, base: nat)
    requires t.Length == 4096 && forall i :: 512 <= i < 2048 ==> t[i] == 0
    modifies t
    ensures forall i :: 0 <= i < 512 ==> t[i] == old(t[i])
    ensures forall i :: 2048 <= i < 4096 ==> t[i] == old(t[i])
    ensures forall i :: 512 <= i < 1024 ==> t[i] == LowerEntry(base, 1, i - 512)
    ensures forall i :: 1024 <= i < 1536 ==> t[i] == LowerEntry(base, 2, i - 1024)
    ensures forall i :: 1536 <= i < 2048 ==> t[i] == LowerEntry(base, 3, i - 1536)
  {
    hide Entry, To;
    t[512] := To(base, 2, RW + P);
    t[513] := Entry(0x4000_0000, S + RW + P);
    t[514] := Entry(0x8000_0000, S + RW + P);
    t[515] := Entry(0xC000_0000, S + RW + P);
    t[1024] := To(base, 3, RW + P);
    FillTable(t, 3, 1, 511, 0x1000, 0x1000, RW + P);
    FillTable(t, 2, 1, 511, 0x20_0000, 0x20_0000, S + RW + P);
  }

  /** The PDPT and the PDT of the kernel. */
  method WriteUpper(t: array<nat>, base: nat, kernel: nat)
    requires t.Length == 4096 && forall i :: 2048 <= i < 4096 ==> t[i] == 0
    modifies t
    ensures forall i :: 0 <= i < 2048 ==> t[i] == old(t[i])
    ensures forall i :: 3072 <= i < 4096 ==> t[i] == PageSlot(base, kernel, [], i - 3072)
    ensures forall i :: 2048 <= i < 2560 ==> t[i] == UpperEntry(base, kernel, 4, i - 2048)
    ensures forall i :: 2560 <= i < 3072 ==> t[i] == UpperEntry(base, kernel, 5, i - 2560)
  {
    hide To, Pml4, Pdpt, Pdt, Pt;
    t[2048 + Pdpt(kernel)] := To(base, 5, RW + P);
    for i := 0 to 2
      invariant forall j :: 0 <= j < 2048 ==> t[j] == old(t[j])
      invariant forall j :: 3072 <= j < 4096 ==> t[j] == if i < 2 then 0 else PageSlot(base, kernel, [], j - 3072)
      invariant forall j :: 2048 <= j < 2560 ==> t[j] == UpperEntry(base, kernel, 4, j - 2048)
      invariant forall j :: 2560 <= j < 3072 ==>
        t[j] == if j < 2560 + Pdt(kernel) + i then UpperEntry(base, kernel, 5, j - 2560) else 0
    {
      t[2560 + Pdt(kernel) + i] := To(base, 6 + i, RW + P);
    }
  }

  method WriteTables(t: array<nat>, base: nat, kernel: nat)
    requires t.Length == 4096
    modifies t
    ensures Built(t[..], base, kernel, [])
  {
    hide To, Pml4, Pdpt, Pdt, Pt, LowerEntry, UpperEntry;
    forall i | 0 <= i < 4096 {
      t[i] := 0;
    }
    t[0] := To(base, 1, RW + P);
    t[Pml4(kernel)] := To(base, 4, RW + P);
    WriteLower(t, base);
    WriteUpper(t, base, kernel);
  }

  /** How the pass over the descriptors ends, from page `pos` of the two tables on. */
  datatype Ending = Filled | Stopped | Astray

  /** The source stops at a descriptor of big pages, or one that starts past the last table; one
      that goes on past it sends the source to a table that there is not. */
  function EndingOf(ds: seq<Descriptor>, pos: nat): Ending {
    if ds == [] then Filled
    else if PdHuge(ds[0].flags) || pos >= 1024 then Stopped
    else if pos + ds[0].numPages > 1024 then Astray
    else EndingOf(ds[1..], pos + ds[0].numPages)
  }

  ghost predicate Accepted(ds: seq<Descriptor>) {
    && ds != [] && Pt(ds[0].virt) + |AllEntries(ds)| <= 1024
    && forall k :: 0 <= k < |ds| ==> !PdHuge(ds[k].flags) && Pt(ds[0].virt) + |AllEntries(ds[..k])| < 1024
  }

  /** Every descriptor starts before the end of the two tables, and the last ends there. */
  lemma {:induction false} FilledIff(ds: seq<Descriptor>, pos: nat)
    requires pos <= 1024
    ensures EndingOf(ds, pos) == Filled <==>
      && pos + |AllEntries(ds)| <= 1024
      && forall k :: 0 <= k < |ds| ==> !PdHuge(ds[k].flags) && pos + |AllEntries(ds[..k])| < 1024
  {
    hide PdHuge;
    if ds != [] {
      var rest, n := ds[1..], ds[0].numPages;
      forall k | 0 <= k < |ds|
        ensures |AllEntries(ds[..k])| == if k == 0 then 0 else n + |AllEntries(rest[..k - 1])|
      {
        if k > 0 {
          assert ds[..k][1..] == rest[..k - 1];
        }
      }
      assert |AllEntries(ds)| == n + |AllEntries(rest)|;
      hide AllEntries;
      if pos + n <= 1024 {
        FilledIff(rest, pos + n);
        assert forall k :: 0 <= k < |rest| ==> rest[k] == ds[k + 1];
        assert forall k :: 0 < k < |ds| ==> ds[k] == rest[k - 1];
      }
    }
  }

  lemma AcceptedIff(ds: seq<Descriptor>)
    ensures Accepted(ds) <==> ds != [] && EndingOf(ds, Pt(ds[0].virt)) == Filled
  {
    if ds != [] {
      FilledIff(ds, Pt(ds[0].virt));
    }
  }

  datatype Setup = Tables(pml4: nat) | NoPages | Halted | OutOfBounds

  /** `t` stands for the pages allocated for the tables, null when there were none to be had. */
  method SetupKernelPageTables(ds: seq<Descriptor>, t: array?<nat>, base: nat) returns (r: Setup)
    requires t != null ==> t.Length == 4096
    modifies if t != null then {t} else {}
    ensures r.NoPages? <==> ds != [] && t == null
    ensures r.Halted? <==> ds == [] || (t != null && EndingOf(ds, Pt(ds[0].virt)) == Stopped)
    ensures r.Tables? <==> ds != [] && t != null && EndingOf(ds, Pt(ds[0].virt)) == Filled
    ensures r.Tables? ==> r.pml4 == base && Built(t[..], base, ds[0].virt, AllEntries(ds))
  {
    hide AllEntries, EntriesOf, Slot, Pt, PdHuge, To;
    if ds == [] {
      return Halted;
    }
    if t == null {
      return NoPages;
    }
    var kernel := ds[0].virt;
    WriteTables(t, base, kernel);
    var index, offset := 0, Pt(kernel);
    var d := 0;
    ghost var all := AllEntries(ds);
    ghost var pos: nat := 0;
    assert all[..0] == [] && ds[0..] == ds;
    while d < |ds|
      invariant 0 <= d <= |ds| && pos <= |all| && all[pos..] == AllEntries(ds[d..])
      invariant offset <= 512 && index * 512 + offset == Pt(kernel) + pos
      invariant Built(t[..], base, kernel, all[..pos])
      invariant EndingOf(ds, Pt(kernel)) == EndingOf(ds[d..], Pt(kernel) + pos)
    {
      assert ds[d..][0] == ds[d] && ds[d..][1..] == ds[d + 1..];
      FirstEntries(ds[d..]);
      if PdHuge(ds[d].flags) || index * 512 + offset >= 1024 {
        return Halted;
      }
      var astray;
      index, offset, astray := FillDescriptor(t, base, kernel, ds[d], index, offset, all, pos);
      if astray {
        return OutOfBounds;
      }
      pos := pos + ds[d].numPages;
      d := d + 1;
    }
    NoEntries();
    assert ds[d..] == [] && all[..pos] == all;
    return Tables(base);
  }

  method FillDescriptor(t: array<nat>, base: nat, kernel: nat, d: Descriptor, index0: nat, offset0: nat,
                        ghost all: seq<nat>, ghost pos: nat)
    returns (index: nat, offset: nat, astray: bool)
    requires t.Length == 4096 && offset0 <= 512 && index0 * 512 + offset0 == Pt(kernel) + pos < 1024
    requires pos + d.numPages <= |all|
    requires all[pos..pos + d.numPages] == EntriesOf(d)
    requires Built(t[..], base, kernel, all[..pos])
    modifies t
    ensures astray <==> Pt(kernel) + pos + d.numPages > 1024
    ensures !astray ==> offset <= 512 && index * 512 + offset == Pt(kernel) + pos + d.numPages
    ensures !astray ==> Built(t[..], base, kernel, all[..pos + d.numPages])
  {
    hide Entry, Pt, Slot;
    index, offset, astray := index0, offset0, false;
    var phys: nat, pages: nat := d.phys, d.numPages;
    var flags := EntryFlags(d.flags) + P;
    ghost var i: nat := 0;
    var more := true;
    while more
      invariant offset <= 512 && i + pages == d.numPages && phys == d.phys + i * 0x1000
      invariant index * 512 + offset == Pt(kernel) + pos + i && index < 2
      invariant Built(t[..], base, kernel, all[..pos + i])
      invariant !more ==> pages == 0
      decreases pages, offset == 512, more
    {
      var n := if pages < 512 - offset then pages else 512 - offset;
      if n > 0 {
        ghost var before := t[..];
        FillTable(t, 6 + index, offset, n, phys, 0x1000, flags);
        FilledSlots(before, t[..], base, kernel, d, (6 + index) * 512 + offset, n, all, pos, i);
      }
      pages, offset, phys, i := pages - n, offset + n, phys + n * 0x1000, i + n;
      more := pages > 0;
      if more {
        index, offset := index + 1, 0;
        if index == 2 {
          return index, offset, true;
        }
      }
    }
  }

  lemma FilledSlots(t: seq<nat>, u: seq<nat>, base: nat, kernel: nat, d: Descriptor, at: nat, n: nat,
                    all: seq<nat>, pos: nat, i: nat)
    requires |u| == 4096 && pos + i + n <= |all|
    requires i + n <= d.numPages && pos + d.numPages <= |all| && all[pos..pos + d.numPages] == EntriesOf(d)
    requires Built(t, base, kernel, all[..pos + i]) && at == 3072 + Pt(kernel) + pos + i
    requires forall j :: 0 <= j < 4096 ==>
      u[j] == Overlay(t[j], j - at, n, d.phys + i * 0x1000, 0x1000, EntryFlags(d.flags) + P)
    ensures Built(u, base, kernel, all[..pos + i + n])
  {
    hide Entry, Pt, Pml4, Pdpt, Pdt, EntryFlags, TopEntry, LowerEntry, UpperEntry;
    forall j | 0 <= j < 4096
      ensures u[j] == Slot(base, kernel, all[..pos + i + n], j)
    {
      var k := j - at;
      assert t[j] == Slot(base, kernel, all[..pos + i], j);
      if 0 <= k < n {
        assert all[pos + i + k] == EntriesOf(d)[i + k] == PageEntry(d, i + k);
      }
    }
  }

  // ----- when the tables say what the list says -----

  lemma {:induction false} EntriesJoin(a: seq<Descriptor>, b: seq<Descriptor>)
    ensures AllEntries(a + b) == AllEntries(a) + AllEntries(b)
  {
    if a == [] {
      assert a + b == b;
    } else {
      EntriesJoin(a[1..], b);
      assert (a + b)[1..] == a[1..] + b && (a + b)[0] == a[0];
      var x, y, z := EntriesOf(a[0]), AllEntries(a[1..]), AllEntries(b);
      assert x + (y + z) == x + y + z;
    }
  }

  lemma OneMore(ds: seq<Descriptor>, k: nat)
    requires k < |ds|
    ensures |AllEntries(ds[..k + 1])| == |AllEntries(ds[..k])| + ds[k].numPages <= |AllEntries(ds)|
  {
    assert ds[..k + 1] == ds[..k] + [ds[k]] && ds == ds[..k + 1] + ds[k + 1..];
    EntriesJoin(ds[..k], [ds[k]]);
    EntriesJoin(ds[..k + 1], ds[k + 1..]);
    assert AllEntries([ds[k]]) == EntriesOf(ds[k]) + AllEntries([]);
  }

  /** Which page of which descriptor an entry is for. */
  lemma {:induction false} PageOfEntry(ds: seq<Descriptor>, p: nat) returns (j: nat, i: nat)
    requires p < |AllEntries(ds)|
    ensures j < |ds| && i < ds[j].numPages && p == |AllEntries(ds[..j])| + i
    ensures AllEntries(ds)[p] == PageEntry(ds[j], i)
  {
    if p < ds[0].numPages {
      j, i := 0, p;
    } else {
      var m: nat := p - ds[0].numPages;
      j, i := PageOfEntry(ds[1..], m);
      assert ds[..j + 1][1..] == ds[1..][..j];
      j := j + 1;
    }
  }

  lemma {:induction false} FirstHolder(ds: seq<Descriptor>, k: nat, va: nat)
    requires k < |ds| && Holds(ds[k], va) && forall j :: 0 <= j < k ==> !Holds(ds[j], va)
    ensures Convert(ds, va) == ds[k].phys + (va - ds[k].virt) && MayWrite(ds, va) == PdWrite(ds[k].flags)
  {
    hide PdWrite;
    if k > 0 {
      assert !Holds(ds[0], va);
      FirstHolder(ds[1..], k - 1, va);
    }
  }

  predicate Apart(a: nat, m: nat, b: nat, n: nat) { a + m * 0x1000 <= b || b + n * 0x1000 <= a }

  /** Canonical addresses only. */
  predicate Ranged(virt: nat, n: nat) {
    || virt + n * 0x1000 <= 0x8000_0000_0000
    || (0xFFFF_8000_0000_0000 <= virt && virt + n * 0x1000 <= 0x1_0000_0000_0000_0000)
  }

  /** A list of pieces, none of them empty, each of whole pages, with addresses of their own. */
  ghost predicate Pieces(ds: seq<Descriptor>, base: nat) {
    && ds != [] && Physical(ds)
    && (forall k :: 0 <= k < |ds| ==>
          && ds[k].numPages > 0 && ds[k].virt % 0x1000 == 0 && Ranged(ds[k].virt, ds[k].numPages)
          && Apart(ds[k].phys, ds[k].numPages, base, 8))
    && forall j, k :: 0 <= j < k < |ds| ==>
         && Apart(ds[j].virt, ds[j].numPages, ds[k].virt, ds[k].numPages)
         && Apart(ds[j].phys, ds[j].numPages, ds[k].phys, ds[k].numPages)
  }

  /** Wherever the list puts a page of piece `k`, the walk finds it, with its permission. */
  ghost predicate AgreesOn(t: seq<nat>, base: nat, ds: seq<Descriptor>, k: nat)
    requires |t| == 4096 && k < |ds|
  {
    forall va :: Holds(ds[k], va) ==> Walk(t, base, va) == Mapped(Convert(ds, va), MayWrite(ds, va))
  }

  /** Piece `k` lies as far from the first as the pages before it take, and its PDT entries reach it. */
  ghost predicate InPlace(ds: seq<Descriptor>, k: nat)
    requires k < |ds|
  {
    var p := |AllEntries(ds[..k])|;
    ds[k].virt == ds[0].virt + p * 0x1000 && Fits(ds[0].virt, p + ds[k].numPages)
  }

  /** Piece `k` is what the identity map makes of its addresses. */
  predicate Identity(ds: seq<Descriptor>, k: nat)
    requires k < |ds|
  {
    && Pml4(ds[0].virt) != 0 && 0x1000 <= ds[k].virt == ds[k].phys && PdWrite(ds[k].flags)
    && ds[k].virt + ds[k].numPages * 0x1000 <= 0x1_0000_0000
  }

  lemma Held(ds: seq<Descriptor>, base: nat, k: nat, va: nat)
    requires Pieces(ds, base) && k < |ds| && Holds(ds[k], va)
    ensures Canonical(va)
    ensures Convert(ds, va) == ds[k].phys + (va - ds[k].virt) && MayWrite(ds, va) == PdWrite(ds[k].flags)
  {
    hide Pml4, Convert, MayWrite, PdWrite, PdHuge;
    FirstHolder(ds, k, va);
  }

  /** The frames of two pages of the list are different. */
  lemma SameFrame(ds: seq<Descriptor>, base: nat, j: nat, i: nat, k: nat)
    requires Pieces(ds, base) && j < |ds| && k < |ds| && i < ds[j].numPages
    requires Frame(PageEntry(ds[j], i)) == ds[k].phys
    ensures j == k && i == 0
  {
    hide Frame, Ranged, PdHuge;
    assert Physical([ds[j]]);
    EntryOfFirst(ds[j], ds[j].virt + i * 0x1000);
  }

  /** An entry for a page of the list is one of the list's own. */
  lemma InTable(base: nat, ds: seq<Descriptor>, m: nat, k: nat)
    requires Pieces(ds, base) && Sound(base, ds[0].virt, AllEntries(ds)) && k < |ds|
    requires var e := PageSlot(base, ds[0].virt, AllEntries(ds), m); Present(e) && Frame(e) == ds[k].phys
    ensures Pt(ds[0].virt) <= m < Pt(ds[0].virt) + |AllEntries(ds)|
  {
    hide AllEntries, Frame, Present, To, Pml4, Pdt, Pt, Ranged, PdHuge;
    Zero();
    LinkFields(base, 7);
  }

  lemma Starts(ds: seq<Descriptor>, base: nat, k: nat)
    requires Pieces(ds, base) && k < |ds|
    ensures Holds(ds[k], ds[k].virt) && ds[k].virt % 0x1000 == 0 && Canonical(ds[k].virt)
  {
    hide PdHuge, Convert, MayWrite, PdWrite;
    Held(ds, base, k, ds[k].virt);
  }

  lemma SamePage(kernel: nat, va: nat)
    requires Canonical(kernel) && Canonical(va) && kernel % 0x1000 == 0 && va % 0x1000 == 0
    requires Pml4(va) == Pml4(kernel) && Pdpt(va) == Pdpt(kernel)
    ensures va == kernel + ((Pdt(va) - Pdt(kernel)) * 512 + Pt(va) - Pt(kernel)) * 0x1000
  {
    hide Pml4, Pdpt, Pdt, Pt, PageNo, Canonical;
    HalfOf(kernel);
    HalfOf(va);
    Digits(kernel);
    Digits(va);
  }

  /** A page that the walk finds under the kernel's PML4 entry, at the first address of a piece, is
      the first of that piece. */
  lemma AtPiece(t: seq<nat>, base: nat, ds: seq<Descriptor>, k: nat)
    requires Pieces(ds, base) && Sound(base, ds[0].virt, AllEntries(ds)) && k < |ds|
    requires Built(t, base, ds[0].virt, AllEntries(ds)) && Pml4(ds[k].virt) == Pml4(ds[0].virt)
    requires Walk(t, base, ds[k].virt) == Mapped(ds[k].phys, PdWrite(ds[k].flags))
    ensures var p := |AllEntries(ds[..k])|; ds[k].virt == ds[0].virt + p * 0x1000 && Fits(ds[0].virt, p + 1)
  {
    hide AllEntries, Walk, Built, Convert, MayWrite, PdWrite, PdHuge, Frame, Present, Writable, To, PageEntry, Pml4,
      Pdpt, Pdt, Pt, PageNo, Pieces, Sound, Canonical;
    var kernel, es, va := ds[0].virt, AllEntries(ds), ds[k].virt;
    Starts(ds, base, 0);
    Starts(ds, base, k);
    WindowWalk(t, base, kernel, es, va);
    var m: nat := (Pdt(va) - Pdt(kernel)) * 512 + Pt(va);
    InTable(base, ds, m, k);
    var p: nat := m - Pt(kernel);
    var j, i := PageOfEntry(ds, p);
    SameFrame(ds, base, j, i, k);
    SamePage(kernel, va);
  }

  /** The page past the last entry of the PDT is not found. */
  lemma PastTable(t: seq<nat>, base: nat, kernel: nat, es: seq<nat>, va: nat)
    requires Built(t, base, kernel, es) && Sound(base, kernel, es) && Pdt(kernel) == 511 && kernel % 0x1000 == 0
    requires va == kernel + (512 - Pt(kernel)) * 0x1000 && Canonical(kernel) && Canonical(va)
    ensures Walk(t, base, va) == Fault
  {
    TopOf(kernel);
    TopOf(va);
    Digit12(kernel);
    Digit21(kernel);
    hide Walk, Built, Pml4, Pdpt, Pt, PageSlot, Frame, Present, Writable, Sound, Canonical;
    assert va % 0x4000_0000 == 0 by {
      var q := kernel / 0x4000_0000;
      assert va == (q + 1) * 0x4000_0000;
    }
    Digit21(va);
    assert Pdt(va) == 0;
    hide Pdt;
    if Pml4(va) == Pml4(kernel) {
      WindowWalk(t, base, kernel, es, va);
    } else {
      OtherTop(t, base, kernel, es, va);
    }
  }

  /** A piece under the kernel's PML4 entry on which walk and list agree is in its place. */
  lemma AgreesInPlace(t: seq<nat>, base: nat, ds: seq<Descriptor>, k: nat)
    requires Pieces(ds, base) && Sound(base, ds[0].virt, AllEntries(ds)) && k < |ds|
    requires Built(t, base, ds[0].virt, AllEntries(ds)) && AgreesOn(t, base, ds, k)
    requires Pml4(ds[k].virt) == Pml4(ds[0].virt)
    ensures InPlace(ds, k)
  {
    hide AllEntries, Walk, Slot, Convert, MayWrite, PdWrite, Pml4, Pdt, Pt, Canonical, Ranged, Physical, Apart;
    var kernel, es, p := ds[0].virt, AllEntries(ds), |AllEntries(ds[..k])|;
    Starts(ds, base, 0);
    Starts(ds, base, k);
    Held(ds, base, k, ds[k].virt);
    AtPiece(t, base, ds, k);
    OneMore(ds, k);
    if !Fits(kernel, p + ds[k].numPages) {
      var va := kernel + (512 - Pt(kernel)) * 0x1000;
      assert Holds(ds[k], va);
      Held(ds, base, k, va);
      PastTable(t, base, kernel, es, va);
    }
  }

  /** A piece elsewhere on which they agree is as the identity map has it. */
  lemma AgreesIdentity(t: seq<nat>, base: nat, ds: seq<Descriptor>, k: nat)
    requires Pieces(ds, base) && Sound(base, ds[0].virt, AllEntries(ds)) && k < |ds|
    requires Built(t, base, ds[0].virt, AllEntries(ds)) && AgreesOn(t, base, ds, k)
    requires Pml4(ds[k].virt) != Pml4(ds[0].virt)
    ensures Identity(ds, k)
  {
    hide AllEntries, Walk, Slot, Convert, MayWrite, PdWrite, Pml4, Pdt, Pt, Canonical, Ranged, Physical, Apart;
    var kernel, es, virt := ds[0].virt, AllEntries(ds), ds[k].virt;
    Starts(ds, base, k);
    Held(ds, base, k, virt);
    TopOf(virt);
    if Pml4(virt) != 0 {
      OtherTop(t, base, kernel, es, virt);
    }
    assert Pml4(virt) == 0;
    LowerWalk(t, base, kernel, es, virt);
    if virt + ds[k].numPages * 0x1000 > 0x1_0000_0000 {
      var va := 0x1_0000_0000;
      assert Holds(ds[k], va);
      FirstPastIdentity();
      LowerWalk(t, base, kernel, es, va);
    }
  }

  lemma FirstPastIdentity()
    ensures Pml4(0x1_0000_0000) == 0
  {
  }

  /** In its place a piece is found page by page. */
  lemma InPlaceAgrees(t: seq<nat>, base: nat, ds: seq<Descriptor>, k: nat)
    requires Pieces(ds, base) && Sound(base, ds[0].virt, AllEntries(ds)) && k < |ds|
    requires Built(t, base, ds[0].virt, AllEntries(ds)) && InPlace(ds, k)
    ensures AgreesOn(t, base, ds, k)
  {
    hide AllEntries, Walk, Slot, Convert, MayWrite, PdWrite, Pml4, Pdt, Pt, PageNo, Canonical, Ranged, Frame, Present,
      Writable, Leaf, PageEntry, Apart, PdHuge;
    var kernel, es, p := ds[0].virt, AllEntries(ds), |AllEntries(ds[..k])|;
    Starts(ds, base, 0);
    OneMore(ds, k);
    forall va: nat | Holds(ds[k], va)
      ensures Walk(t, base, va) == Mapped(Convert(ds, va), MayWrite(ds, va))
    {
      Held(ds, base, k, va);
      var i := (va - ds[k].virt) / 0x1000;
      assert Physical([ds[k]]);
      EntryOfFirst(ds[k], va);
      KernelPage(kernel, p + ds[k].numPages, va);
      PagePlace(ds[k].virt, kernel, p, va);
      EntryIn(ds, k, i);
      PageWalk(t, base, kernel, es, va, p + i);
    }
  }

  lemma PagePlace(virt: nat, kernel: nat, p: nat, va: nat)
    requires virt == kernel + p * 0x1000 <= va
    ensures (va - kernel) / 0x1000 == p + (va - virt) / 0x1000
  {
    var i := (va - virt) / 0x1000;
    ModUnique(va - kernel, 0x1000, p + i, (va - virt) % 0x1000);
  }

  lemma EntryIn(ds: seq<Descriptor>, k: nat, i: nat)
    requires k < |ds| && i < ds[k].numPages
    ensures |AllEntries(ds[..k])| + i < |AllEntries(ds)|
    ensures AllEntries(ds)[|AllEntries(ds[..k])| + i] == PageEntry(ds[k], i)
  {
    var rest := ds[k..];
    assert ds == ds[..k] + rest;
    EntriesJoin(ds[..k], rest);
    assert AllEntries(rest) == EntriesOf(rest[0]) + AllEntries(rest[1..]);
    hide AllEntries;
    assert EntriesOf(ds[k])[i] == PageEntry(ds[k], i);
  }

  lemma IdentityAgrees(t: seq<nat>, base: nat, ds: seq<Descriptor>, k: nat)
    requires Pieces(ds, base) && Sound(base, ds[0].virt, AllEntries(ds)) && k < |ds|
    requires Built(t, base, ds[0].virt, AllEntries(ds)) && Identity(ds, k)
    ensures AgreesOn(t, base, ds, k)
  {
    hide AllEntries, Walk, Slot, Convert, MayWrite, Pml4, Pdt, Pt, Canonical, Ranged, Physical, Apart;
    forall va: nat | Holds(ds[k], va)
      ensures Walk(t, base, va) == Mapped(Convert(ds, va), MayWrite(ds, va))
    {
      Held(ds, base, k, va);
      TopOf(va);
      LowerWalk(t, base, ds[0].virt, AllEntries(ds), va);
    }
  }

  /** The tables say what the list says of a piece exactly when it is in its place or as the identity
      map has it. */
  lemma AgreesIff(t: seq<nat>, base: nat, ds: seq<Descriptor>, k: nat)
    requires Pieces(ds, base) && Sound(base, ds[0].virt, AllEntries(ds)) && k < |ds|
    requires Built(t, base, ds[0].virt, AllEntries(ds))
    ensures AgreesOn(t, base, ds, k) <==> InPlace(ds, k) || Identity(ds, k)
  {
    hide AllEntries, AgreesOn, Slot, Physical, Ranged, Apart, Sound, InPlace, Identity, Pml4;
    if AgreesOn(t, base, ds, k) {
      if Pml4(ds[k].virt) == Pml4(ds[0].virt) {
        AgreesInPlace(t, base, ds, k);
      } else {
        AgreesIdentity(t, base, ds, k);
      }
    } else if InPlace(ds, k) {
      InPlaceAgrees(t, base, ds, k);
    } else if Identity(ds, k) {
      IdentityAgrees(t, base, ds, k);
    }
  }

  /** All pieces are in their places exactly when they follow on each other and do not leave the last
      entry of the kernel's PDT. */
  lemma InPlaceIff(ds: seq<Descriptor>)
    requires ds != []
    ensures (forall k :: 0 <= k < |ds| ==> InPlace(ds, k)) <==> Contiguous(ds) && Fits(ds[0].virt, |AllEntries(ds)|)
  {
    hide AllEntries, Pdt, Pt;
    var n := |ds| - 1;
    OneMore(ds, n);
    assert ds[..n + 1] == ds;
    if forall k :: 0 <= k < |ds| ==> InPlace(ds, k) {
      assert InPlace(ds, n);
      forall k | 0 < k < |ds|
        ensures ds[k].virt == ds[k - 1].virt + ds[k - 1].numPages * 0x1000
      {
        assert InPlace(ds, k) && InPlace(ds, k - 1);
        OneMore(ds, k - 1);
      }
    }
    if Contiguous(ds) && Fits(ds[0].virt, |AllEntries(ds)|) {
      forall k | 0 <= k < |ds|
        ensures InPlace(ds, k)
      {
        ContiguousStarts(ds, k);
        OneMore(ds, k);
      }
    }
  }

  lemma ContiguousStarts(ds: seq<Descriptor>, k: nat)
    requires Contiguous(ds) && k < |ds|
    ensures ds[k].virt == ds[0].virt + |AllEntries(ds[..k])| * 0x1000
  {
    if k > 0 {
      ContiguousStarts(ds, k - 1);
      OneMore(ds, k - 1);
    }
  }

  /** Two pieces with a page between them: the list finds the second, and the walk does not. */
  lemma GapFaults(t: seq<nat>, base: nat)
    requires base % 0x1000 == 0 && base + 0x8000 <= 0x10_0000_0000_0000
    requires Built(t, base, GapList()[0].virt, AllEntries(GapList()))
    ensures Accepted(GapList())
    ensures Convert(GapList(), GapList()[1].virt) == 0x20_0000 && Walk(t, base, GapList()[1].virt) == Fault
  {
    hide Built, PageEntry, EntriesOf, AllEntries, Walk, Pml4, Pdpt, Pdt, Pt, PageNo, Frame, Present, Writable;
    var ds := GapList();
    var rest := ds[1..];
    FirstEntries(ds);
    FirstEntries(rest);
    NoEntries();
    assert rest == [ds[1]] && rest[1..] == [];
    GapDigits();
    AcceptedIff(ds);
    UpperWalk(t, base, ds[0].virt, AllEntries(ds), ds[1].virt);
  }

  lemma GapDigits()
    ensures var kernel, va := GapList()[0].virt, GapList()[1].virt;
      && Pml4(kernel) == Pml4(va) == 511 && Pdt(kernel) == 0 && Pt(kernel) == 0 && PageNo(va) == PageNo(kernel) + 2
  {
  }

  function GapList(): seq<Descriptor> {
    [Descriptor(0x10_0000, 0xFFFF_FFFF_8000_0000, 1, 0), Descriptor(0x20_0000, 0xFFFF_FFFF_8000_2000, 1, 0)]
  }
}
