/** The data of an initrd image: where scripts/mkinitrd.py writes them, and where its entries say that
    they are. */
module InitrdDatas {
  import opened Base
  import opened PathText
  import opened Mkinitrds

  function Zeros(n: nat): (s: string)
    ensures |s| == n && forall i :: 0 <= i < n ==> s[i] == '\0'
  { seq(n, i => '\0') }

  /** `src` holds the source files, each as long as the directives say. */
  ghost predicate Supplied(ds: seq<Directive>, src: map<string, string>) {
    forall k :: 0 <= k < |ds| ==> Has(ds[k], src)
  }

  ghost predicate Has(d: Directive, src: map<string, string>) {
    d.kind == File ==> d.operand in src && |src[d.operand]| == d.size
  }

  /** What a directive is to put into the image. */
  function Raw(d: Directive, src: map<string, string>): string
    requires d.kind == File ==> d.operand in src
  {
    match d.kind
    case File => src[d.operand]
    case Link => d.operand + "\0"
    case Dir => ""
  }

  /** How many zeros follow: for a link one too few, if any. */
  function Padding(d: Directive): nat {
    var pad: nat := PageUp(d.size) - d.size;
    if d.kind == Link && pad > 0 then pad - 1 else pad
  }

  function Written(d: Directive, src: map<string, string>): string
    requires d.kind == File ==> d.operand in src
  { Raw(d, src) + Zeros(Padding(d)) }

  /** The last loop: every directive is written, whether or not the first pass kept it. */
  function DataOf(ds: seq<Directive>, src: map<string, string>): string
    requires forall k :: 0 <= k < |ds| && ds[k].kind == File ==> ds[k].operand in src
  {
    if ds == [] then [] else DataOf(ds[..|ds| - 1], src) + Written(ds[|ds| - 1], src)
  }

  method WriteData(ds: seq<Directive>, src: map<string, string>) returns (data: string)
    requires AllProper(ds) && Supplied(ds, src)
    ensures data == DataOf(ds, src)
  {
    hide Raw, PageUp, Padding, Proper;
    data := [];
    var i := 0;
    while i < |ds|
      invariant 0 <= i <= |ds| && data == DataOf(ds[..i], src)
    {
      assert Has(ds[i], src) && ds[..i + 1][..i] == ds[..i];
      ghost var before := data;
      if ds[i].kind != Dir {
        data := data + Raw(ds[i], src);
        data := data + Zeros(Padding(ds[i]));
      } else {
        NothingWritten(ds[i], src);
      }
      assert data == before + Written(ds[i], src);
      i := i + 1;
    }
    assert ds[..i] == ds;
  }

  lemma NothingWritten(d: Directive, src: map<string, string>)
    requires Proper(d) && d.kind == Dir
    ensures Written(d, src) == []
  {
  }

  // ----- how far what is written drifts from what was reserved -----

  /** The zero that a link lacks. */
  function Lack(d: Directive): nat { if d.kind == Link && d.size % 0x1000 != 0 then 1 else 0 }

  /** What is written although the first pass reserved nothing: a path or a source file again. */
  function Again(plan: Plan, d: Directive): nat {
    if d.path in plan.info || (d.kind == File && d.operand in plan.files) then PageUp(d.size) else 0
  }

  ghost function Lacking(ds: seq<Directive>): nat {
    if ds == [] then 0 else Lacking(ds[..|ds| - 1]) + Lack(ds[|ds| - 1])
  }

  ghost function Repeated(ds: seq<Directive>): nat
    requires AllProper(ds)
  {
    if ds == [] then 0
    else Repeated(ds[..|ds| - 1]) + Again(Planned(ds[..|ds| - 1]), ds[|ds| - 1])
  }

  lemma WrittenLength(d: Directive, src: map<string, string>)
    requires Proper(d) && Has(d, src)
    ensures |Raw(d, src)| == d.size && |Written(d, src)| + Lack(d) == PageUp(d.size)
  {
    PadLength(d.size);
  }

  lemma PadLength(n: nat)
    ensures PageUp(n) >= n && (PageUp(n) == n <==> n % 0x1000 == 0)
  {
    var q, r := n / 0x1000, n % 0x1000;
    if r == 0 {
      ModUnique(n + 0xFFF, 0x1000, q, 0xFFF);
    } else {
      ModUnique(n + 0xFFF, 0x1000, q + 1, r - 1);
    }
  }

  lemma Reserved(plan: Plan, d: Directive)
    requires Listed(plan) && Proper(d)
    ensures WithDirective(plan, d).next + Again(plan, d) == plan.next + PageUp(d.size)
  {
    hide Normal, IsDir, Holder, Upwards, WithDirs;
    if d.path !in plan.info {
      OnTheWay(d.path);
      WithDirsData(plan, Upwards(Holder(d.path)));
    }
  }

  /** What is written, and the zeros that links lack, is what was reserved and what is repeated. */
  lemma {:induction false} Drift(ds: seq<Directive>, src: map<string, string>)
    requires AllProper(ds) && Supplied(ds, src)
    ensures |DataOf(ds, src)| + Lacking(ds) == Planned(ds).next + Repeated(ds)
  {
    hide Proper, Written, Lack, Again, Has;
    if ds != [] {
      var front, last := ds[..|ds| - 1], ds[|ds| - 1];
      assert Supplied(front, src) && Has(last, src);
      Drift(front, src);
      PlannedRooted(front);
      Reserved(Planned(front), last);
      WrittenLength(last, src);
    }
  }

  // ----- where the data of each path come from -----

  /** Directive `k` is the first for its path, and for its source file if it names one. */
  ghost predicate New(ds: seq<Directive>, k: nat)
    requires AllProper(ds) && k < |ds|
  {
    && ds[k].kind != Dir && ds[k].path !in Planned(ds[..k]).info
    && (ds[k].kind == File ==> ds[k].operand !in Planned(ds[..k]).files)
  }

  /** What is at a path comes with directive `k`: its own, or the first of its source file. */
  ghost predicate Origin(ds: seq<Directive>, k: nat, p: string)
    requires AllProper(ds) && k < |ds| && p in Planned(ds).info
  {
    && New(ds, k) && Says(ds[k], Planned(ds).info[p])
    && (ds[k].path == p || ds[k].kind == File)
  }

  /** What the first pass makes of a new directive. */
  lemma NewItem(plan: Plan, d: Directive)
    requires Listed(plan) && Proper(d) && d.kind != Dir && d.path !in plan.info
    requires d.kind == File ==> d.operand !in plan.files
    ensures var more := WithDirective(plan, d);
      d.path in more.info && more.info[d.path] == Item(d.kind, d.operand, d.size, plan.next)
  {
    hide Normal, IsDir, Holder, Upwards, WithDirs;
    OnTheWay(d.path);
    WithDirsData(plan, Upwards(Holder(d.path)));
  }

  /** A new directive is recorded at what was reserved before it. */
  lemma {:induction false} NewOff(ds: seq<Directive>, k: nat)
    requires AllProper(ds) && k < |ds| && New(ds, k)
    ensures ds[k].path in Planned(ds).info
    ensures Planned(ds).info[ds[k].path] == Item(ds[k].kind, ds[k].operand, ds[k].size, Planned(ds[..k]).next)
    decreases |ds|
  {
    hide Proper, Listed, Rooted, WithDirective;
    var front, last := ds[..|ds| - 1], ds[|ds| - 1];
    PlannedRooted(front);
    if k < |front| {
      assert front[..k] == ds[..k];
      NewOff(front, k);
      Added(Planned(front), last);
    } else {
      NewItem(Planned(front), last);
    }
  }

  /** A path's data have one origin only. */
  lemma OriginOnce(ds: seq<Directive>, k: nat, j: nat, p: string)
    requires AllProper(ds) && k < |ds| && j < |ds| && p in Planned(ds).info
    requires Origin(ds, k, p) && Origin(ds, j, p)
    ensures k == j
  {
    hide Proper, Planned;
    if j < k {
      Before(ds, j, k);
    } else if k < j {
      Before(ds, k, j);
    }
  }

  /** What is new at `j` is known at `k`. */
  lemma Before(ds: seq<Directive>, j: nat, k: nat)
    requires AllProper(ds) && j < k < |ds| && New(ds, j)
    ensures ds[j].path in Planned(ds[..k]).info
    ensures ds[j].kind == File ==> ds[j].operand in Planned(ds[..k]).files
  {
    hide Proper, Listed, Rooted, WithDirective, Planned;
    var front := ds[..k];
    assert front[..j] == ds[..j];
    NewOff(front, j);
    PlannedFiles(front);
  }

  /** The source files that have a place are those of the file items, and no others. */
  lemma {:induction false} PlannedFiles(ds: seq<Directive>)
    requires AllProper(ds)
    ensures forall p :: p in Planned(ds).info && Planned(ds).info[p].kind == File ==>
      Planned(ds).info[p].operand in Planned(ds).files
  {
    hide Proper, Listed, Rooted, WithDirective;
    if ds != [] {
      var front, last := ds[..|ds| - 1], ds[|ds| - 1];
      PlannedFiles(front);
      PlannedRooted(front);
      FilesMore(Planned(front), last);
      Added(Planned(front), last);
    }
  }

  lemma FilesMore(plan: Plan, d: Directive)
    requires Listed(plan) && Proper(d)
    ensures var more := WithDirective(plan, d);
      && (forall f :: f in plan.files ==> f in more.files && more.files[f] == plan.files[f])
      && (d.path !in plan.info && d.kind == File ==> d.operand in more.files)
      && (d.path !in plan.info && d.kind == File && d.operand in plan.files ==>
            d.path in more.info && more.info[d.path].off == plan.files[d.operand])
  {
    hide Normal, IsDir, Holder, Upwards, WithDirs;
    if d.path !in plan.info {
      OnTheWay(d.path);
      WithDirsData(plan, Upwards(Holder(d.path)));
    }
  }

  lemma SuppliedConsistent(ds: seq<Directive>, src: map<string, string>)
    requires Supplied(ds, src)
    ensures Consistent(ds)
  {
    assert forall k :: 0 <= k < |ds| ==> Has(ds[k], src);
  }

  /** Every path with data has an origin, and is recorded at what was reserved before that. */
  lemma {:induction false} OriginOf(ds: seq<Directive>, src: map<string, string>, p: string) returns (k: nat)
    requires AllProper(ds) && Supplied(ds, src) && p in Planned(ds).info && Planned(ds).info[p].kind != Dir
    ensures k < |ds| && Origin(ds, k, p) && Planned(ds).info[p].off == Planned(ds[..k]).next
    decreases |ds|
  {
    hide Proper, Listed, Rooted, WithDirective, Has;
    assert ds != [];
    var front, last := ds[..|ds| - 1], ds[|ds| - 1];
    assert Supplied(front, src);
    PlannedRooted(front);
    Added(Planned(front), last);
    if p in Planned(front).info {
      k := OriginOf(front, src, p);
      assert front[..k] == ds[..k];
    } else if last.kind == File && last.operand in Planned(front).files {
      FilesMore(Planned(front), last);
      SuppliedConsistent(front, src);
      PlannedRanges(front);
      var q := NamedBy(Planned(front), last.operand);
      k := OriginOf(front, src, q);
      assert front[..k] == ds[..k];
      SameSize(front[k], last, src);
    } else {
      k := |front|;
      NewOff(ds, k);
    }
  }

  lemma NamedBy(plan: Plan, f: string) returns (p: string)
    requires Recorded(plan) && f in plan.files
    ensures p in plan.info && Of(plan.info[p], f) && plan.info[p].off == plan.files[f]
  {
    p :| p in plan.info && Of(plan.info[p], f);
  }

  lemma SameSize(a: Directive, b: Directive, src: map<string, string>)
    requires Has(a, src) && Has(b, src) && a.kind == File && b.kind == File && a.operand == b.operand
    ensures a.size == b.size
  {
  }

  // ----- when an entry points at its data -----

  /** The entry for a path points at the place where the data it is to have are written. */
  ghost predicate Points(ds: seq<Directive>, src: map<string, string>, p: string)
    requires AllProper(ds) && Supplied(ds, src) && p in Planned(ds).info
  {
    exists k :: 0 <= k < |ds| && Origin(ds, k, p) && Planned(ds).info[p].off == |DataOf(ds[..k], src)|
  }

  /** Nothing before directive `k` has made it drift. */
  ghost predicate Level(ds: seq<Directive>, k: nat)
    requires AllProper(ds) && k <= |ds|
  { Repeated(ds[..k]) == Lacking(ds[..k]) }

  /** The entry for a path points at its data exactly when the bytes written again before them are as
      many as the zeros that links before them lack. */
  lemma PointsIff(ds: seq<Directive>, src: map<string, string>, p: string, k: nat)
    requires AllProper(ds) && Supplied(ds, src) && p in Planned(ds).info && k < |ds| && Origin(ds, k, p)
    ensures Points(ds, src, p) <==> Level(ds, k)
  {
    hide Proper, Planned, DataOf, Origin, Repeated, Lacking;
    OriginData(ds, p, k);
    var j := OriginOf(ds, src, p);
    OriginOnce(ds, j, k, p);
    assert Supplied(ds[..k], src);
    Drift(ds[..k], src);
    if Points(ds, src, p) {
      var i :| 0 <= i < |ds| && Origin(ds, i, p) && Planned(ds).info[p].off == |DataOf(ds[..i], src)|;
      OriginOnce(ds, i, k, p);
    }
  }

  lemma OriginData(ds: seq<Directive>, p: string, k: nat)
    requires AllProper(ds) && p in Planned(ds).info && k < |ds| && Origin(ds, k, p)
    ensures Planned(ds).info[p].kind == ds[k].kind != Dir && Planned(ds).info[p].size == ds[k].size
  {
    hide Proper, Planned;
  }

  /** All entries point at their data exactly when no new directive has drifted. */
  lemma AllPointIff(ds: seq<Directive>, src: map<string, string>)
    requires AllProper(ds) && Supplied(ds, src)
    ensures (forall p :: p in Planned(ds).info && Planned(ds).info[p].kind != Dir ==> Points(ds, src, p)) <==>
      forall k: nat :: k < |ds| && New(ds, k) ==> Level(ds, k)
  {
    hide Proper, Planned, DataOf, Origin, Level, Points;
    if forall p :: p in Planned(ds).info && Planned(ds).info[p].kind != Dir ==> Points(ds, src, p) {
      forall k: nat | k < |ds| && New(ds, k)
        ensures Level(ds, k)
      {
        NewOrigin(ds, k);
        OriginData(ds, ds[k].path, k);
        PointsIff(ds, src, ds[k].path, k);
      }
    }
    if forall k: nat :: k < |ds| && New(ds, k) ==> Level(ds, k) {
      forall p | p in Planned(ds).info && Planned(ds).info[p].kind != Dir
        ensures Points(ds, src, p)
      {
        var k := OriginOf(ds, src, p);
        OriginNew(ds, k, p);
        PointsIff(ds, src, p, k);
      }
    }
  }

  lemma NewOrigin(ds: seq<Directive>, k: nat)
    requires AllProper(ds) && k < |ds| && New(ds, k)
    ensures ds[k].path in Planned(ds).info && Origin(ds, k, ds[k].path)
  {
    hide Proper, Planned;
    NewOff(ds, k);
  }

  lemma OriginNew(ds: seq<Directive>, k: nat, p: string)
    requires AllProper(ds) && k < |ds| && p in Planned(ds).info && Origin(ds, k, p)
    ensures New(ds, k)
  {
    hide Proper, Planned, New;
  }

  /** Nothing is repeated, and no link lacks a zero, before any data. */
  ghost predicate Tidy(ds: seq<Directive>)
    requires AllProper(ds)
  {
    forall j, k :: 0 <= j < k < |ds| && ds[k].kind != Dir ==>
      Lack(ds[j]) == 0 && Again(Planned(ds[..j]), ds[j]) == 0
  }

  lemma {:induction false} NoDrift(ds: seq<Directive>, k: nat)
    requires AllProper(ds) && k <= |ds|
    requires forall j :: 0 <= j < k ==> Lack(ds[j]) == 0 && Again(Planned(ds[..j]), ds[j]) == 0
    ensures Repeated(ds[..k]) == Lacking(ds[..k]) == 0
  {
    hide Proper, Planned, Lack, Again;
    if k > 0 {
      NoDrift(ds, k - 1);
      assert ds[..k][..k - 1] == ds[..k - 1];
    }
  }

  /** In a tidy list every entry points at its data. */
  lemma TidyPoints(ds: seq<Directive>, src: map<string, string>, p: string)
    requires AllProper(ds) && Supplied(ds, src) && Tidy(ds)
    requires p in Planned(ds).info && Planned(ds).info[p].kind != Dir
    ensures Points(ds, src, p)
  {
    hide Proper, Planned, Lack, Again, Origin;
    var k := OriginOf(ds, src, p);
    OriginData(ds, p, k);
    NoDrift(ds, k);
    PointsIff(ds, src, p, k);
  }

  // ----- reading them -----

  /** What a device gives of `n` bytes at `off`. */
  function Clip(img: string, off: nat, n: nat): string {
    var from := Min(off, |img|);
    img[from..Min(off + n, |img|)]
  }

  lemma {:induction false} WrittenAt(ds: seq<Directive>, src: map<string, string>, k: nat)
    requires Supplied(ds, src) && k < |ds|
    ensures |DataOf(ds[..k], src)| + |Raw(ds[k], src)| <= |DataOf(ds, src)|
    ensures Clip(DataOf(ds, src), |DataOf(ds[..k], src)|, |Raw(ds[k], src)|) == Raw(ds[k], src)
    decreases |ds|
  {
    hide Raw, Clip, Padding, Zeros;
    assert Has(ds[k], src);
    var front, last := ds[..|ds| - 1], ds[|ds| - 1];
    assert Supplied(front, src) && Has(last, src);
    if k < |front| {
      assert front[..k] == ds[..k];
      WrittenAt(front, src, k);
      ClipFront(DataOf(front, src), Written(last, src), |DataOf(ds[..k], src)|, |Raw(ds[k], src)|);
    } else {
      ClipLast(DataOf(front, src), Raw(last, src), Zeros(Padding(last)));
    }
  }

  lemma ClipFront(a: string, b: string, off: nat, n: nat)
    requires off + n <= |a|
    ensures Clip(a + b, off, n) == Clip(a, off, n)
  {
  }

  lemma ClipLast(a: string, b: string, c: string)
    ensures Clip(a + (b + c), |a|, |b|) == b
  {
  }

  /** Where an entry points at its data, reading it gives them. */
  lemma PointsReads(ds: seq<Directive>, src: map<string, string>, p: string, k: nat)
    requires AllProper(ds) && Supplied(ds, src) && p in Planned(ds).info && k < |ds| && Origin(ds, k, p)
    requires Level(ds, k)
    ensures var item := Planned(ds).info[p];
      (ds[k].kind == File ==> ds[k].operand in src) && Clip(DataOf(ds, src), item.off, item.size) == Raw(ds[k], src)
  {
    hide Proper, Planned, DataOf, Origin, Level, Clip, Raw, Written;
    assert Has(ds[k], src);
    PointsIff(ds, src, p, k);
    var i :| 0 <= i < |ds| && Origin(ds, i, p) && Planned(ds).info[p].off == |DataOf(ds[..i], src)|;
    OriginOnce(ds, i, k, p);
    OriginData(ds, p, k);
    WrittenAt(ds, src, k);
    WrittenLength(ds[k], src);
  }

  // ----- links that push what follows -----

  function TwoLinks(): seq<Directive> { [Directive(Link, "/a", "b", 2), Directive(Link, "/c", "d", 2)] }

  /** Two links: the target of the second is written one byte before the place that its entry names,
      and a null is read there. */
  lemma SecondLinkMisread()
    ensures AllProper(TwoLinks()) && "/c" in Planned(TwoLinks()).info
    ensures Planned(TwoLinks()).info["/c"] == Item(Link, "d", 2, 0x1000)
    ensures |DataOf(TwoLinks()[..1], map[])| == 0xFFF && Clip(DataOf(TwoLinks(), map[]), 0x1000, 1) == "\0"
  {
    hide Planned, DataOf, Proper, Clip;
    TwoPlanned();
    TwoWritten();
  }

  lemma TwoPlanned()
    ensures AllProper(TwoLinks()) && "/c" in Planned(TwoLinks()).info
    ensures Planned(TwoLinks()).info["/c"] == Item(Link, "d", 2, 0x1000)
  {
    hide Normal, IsDir, Holder, WithDirective;
    var ds := TwoLinks();
    TopPath("/a");
    TopPath("/c");
    var one := ds[..1];
    assert one[..0] == [] && one[0] == ds[0];
    AtTop(ds[0], Planned([]));
    assert Planned(one) == WithDirective(Planned([]), ds[0]);
    AtTop(ds[1], Planned(one));
  }

  lemma TwoWritten()
    ensures |DataOf(TwoLinks()[..1], map[])| == 0xFFF && Clip(DataOf(TwoLinks(), map[]), 0x1000, 1) == "\0"
  {
    hide Clip;
    var ds := TwoLinks();
    var one := ds[..1];
    assert one[..0] == [] && one[0] == ds[0];
    var a, b := Written(ds[0], map[]), Written(ds[1], map[]);
    assert |a| == 0xFFF && |b| == 0xFFF && b[1] == '\0';
    assert DataOf(one, map[]) == [] + a && DataOf(ds, map[]) == DataOf(one, map[]) + b;
    OneByte(DataOf(ds, map[]), 0x1000);
  }

  lemma OneByte(s: string, off: nat)
    requires off < |s|
    ensures Clip(s, off, 1) == [s[off]]
  {
  }

  lemma TopPath(p: string)
    requires |p| == 2 && p[0] == '/' && 'a' <= p[1] <= 'z'
    ensures Normal(p) && !IsDir(p) && Holder(p) == "/"
  {
    assert Strip(p) == p;
    assert p[..1] == "/" && DropName("/") == "/";
  }

  lemma AtTop(d: Directive, plan: Plan)
    requires Proper(d) && d.kind == Link && Holder(d.path) == "/" && d.path !in plan.info
    ensures WithDirective(plan, d).info == plan.info[d.path := Item(Link, d.operand, d.size, plan.next)]
    ensures WithDirective(plan, d).next == plan.next + PageUp(d.size)
  {
    hide Normal, IsDir, Holder, PageUp;
    RootUpwards();
  }
}
