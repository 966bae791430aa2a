/** The writer of initrd images, scripts/mkinitrd.py: which entries it makes, and in which order. */
module Mkinitrds {
  import opened PathText

  datatype Kind = File | Dir | Link

  /** A directive: what to put at a path, from which operand, and how big that is. */
  datatype Directive = Directive(kind: Kind, path: string, operand: string, size: nat)

  /** A directive's kind, operand and size at a path, and where its data go. */
  datatype Item = Item(kind: Kind, operand: string, size: nat, off: nat)

  datatype Entry = Entry(kind: Kind, path: string, off: nat, size: nat)

  function PageUp(n: nat): nat { (n + 0xFFF) / 0x1000 * 0x1000 }

  // ----- the directories on the way to a path -----

  /** The directories above one, from the outermost in, and itself; none for the root. */
  function Upwards(d: string): seq<string>
    requires d == "/" || (Normal(d) && IsDir(d))
    decreases |d|
  {
    if d == "/" then []
    else
      HolderNormal(d);
      Upwards(Holder(d)) + [d]
  }

  function Reversed(s: seq<string>): (r: seq<string>)
    ensures |r| == |s| && forall i :: 0 <= i < |s| ==> r[i] == s[|s| - 1 - i]
  { seq(|s|, i requires 0 <= i < |s| => s[|s| - 1 - i]) }

  lemma ReversedMore(s: seq<string>, x: string)
    ensures Reversed(s + [x]) == [x] + Reversed(s)
  {
  }

  /** `head` is what is left of a path when it is split at directory `d`. */
  ghost predicate Heads(head: string, d: string) {
    if d == "/" then head == "/" else Normal(d) && IsDir(d) && head == Strip(d) && head + "/" == d && Normal(head)
  }

  lemma FirstHead(p: string)
    requires Normal(p)
    ensures Heads(SplitHead(Strip(p)), Holder(p)) && Strip(p) == if IsDir(p) then p[..|p| - 1] else p
  {
    HolderNormal(p);
    StripNormal(p);
    DirnameNormal(p);
  }

  lemma NextHead(head: string, d: string)
    requires Heads(head, d) && d != "/"
    ensures Heads(SplitHead(head), Holder(d)) && |Holder(d)| < |d| && head != "." && head != "/"
    ensures Upwards(d) == Upwards(Holder(d)) + [head + "/"]
  {
    StripNormal(d);
    HolderNormal(d);
    DirnameNormal(d);
  }

  lemma HeadEnds(head: string, d: string)
    requires Heads(head, d)
    ensures d == "/" || (Normal(d) && IsDir(d))
    ensures head == "." || head == "/" <==> d == "/"
  {
    if d != "/" {
      NextHead(head, d);
    }
  }

  /** get_intermediate_paths. */
  method Intermediates(p: string) returns (parts: seq<string>)
    requires Normal(p)
    ensures Holder(p) == "/" || (Normal(Holder(p)) && IsDir(Holder(p)))
    ensures parts == Upwards(Holder(p))
  {
    hide Normal, Strip, Holder, SplitHead, Heads, Reversed, Upwards;
    FirstHead(p);
    var path := if IsDir(p) then p[..|p| - 1] else p;
    var head := SplitHead(path);
    ghost var d := Holder(p);
    HeadEnds(head, d);
    ghost var all := Upwards(d);
    parts := [];
    NoneReversed();
    while head != "." && head != "/"
      invariant Heads(head, d) && (d == "/" || (Normal(d) && IsDir(d))) && Upwards(d) + Reversed(parts) == all
      decreases |d|
    {
      HeadEnds(head, d);
      NextHead(head, d);
      ReversedMore(parts, head + "/");
      parts := parts + [head + "/"];
      path := head;
      head := SplitHead(path);
      d := Holder(d);
      HeadEnds(head, d);
    }
    HeadEnds(head, d);
    RootUpwards();
    parts := Reversed(parts);
  }

  lemma NoneReversed()
    ensures Reversed([]) == []
  {
  }

  lemma RootUpwards()
    ensures Upwards("/") == []
  {
  }

  /** Each directory on the way has the one that holds it on the way too. */
  lemma {:induction false} UpwardsClosed(d: string, p: string)
    requires (d == "/" || (Normal(d) && IsDir(d))) && p in Upwards(d)
    ensures Normal(p) && IsDir(p) && |p| <= |d| && (Holder(p) == "/" || Holder(p) in Upwards(d))
    decreases |d|
  {
    HolderNormal(d);
    if p != d {
      UpwardsClosed(Holder(d), p);
    } else if Holder(d) != "/" {
      assert Upwards(Holder(d))[|Upwards(Holder(d))| - 1] == Holder(d);
    }
  }

  // ----- the first pass -----

  /** The paths collected, in the order they came, what is at each, where the data of each source
      file went, and where the next data goes. */
  datatype Plan = Plan(keys: seq<string>, info: map<string, Item>, files: map<string, nat>, next: nat)

  function NoData(): Item { Item(Dir, "", 0, 0) }

  function WithDir(plan: Plan, p: string): Plan {
    if p in plan.info then plan else plan.(keys := plan.keys + [p], info := plan.info[p := NoData()])
  }

  function WithDirs(plan: Plan, ps: seq<string>): Plan {
    if ps == [] then plan else WithDir(WithDirs(plan, ps[..|ps| - 1]), ps[|ps| - 1])
  }

  function WithItem(plan: Plan, d: Directive): Plan {
    var keys := plan.keys + [d.path];
    match d.kind
    case Dir => plan.(keys := keys, info := plan.info[d.path := Item(Dir, d.operand, d.size, 0)])
    case Link =>
      plan.(keys := keys, info := plan.info[d.path := Item(Link, d.operand, d.size, plan.next)],
            next := plan.next + PageUp(d.size))
    case File =>
      if d.operand in plan.files then
        plan.(keys := keys, info := plan.info[d.path := Item(File, d.operand, d.size, plan.files[d.operand])])
      else
        Plan(keys, plan.info[d.path := Item(File, d.operand, d.size, plan.next)], plan.files[d.operand := plan.next],
             plan.next + PageUp(d.size))
  }

  function WithDirective(plan: Plan, d: Directive): Plan
    requires Normal(d.path)
  {
    if d.path in plan.info then plan
    else
      HolderNormal(d.path);
      WithItem(WithDirs(plan, Upwards(Holder(d.path))), d)
  }

  ghost predicate Ascii(s: string) { forall i :: 0 <= i < |s| ==> s[i] as int < 128 }

  /** Directories, and only they, end in a slash; they have no data, and links their target with a null
      after it. */
  ghost predicate Proper(d: Directive) {
    && Normal(d.path) && (d.kind == Dir <==> IsDir(d.path)) && (d.kind == Dir ==> d.operand == "" && d.size == 0)
    && (d.kind == Link ==> d.size == |d.operand| + 1 && Ascii(d.operand))
  }

  ghost predicate AllProper(ds: seq<Directive>) { forall k :: 0 <= k < |ds| ==> Proper(ds[k]) }

  function Planned(ds: seq<Directive>): Plan
    requires AllProper(ds)
  {
    if ds == [] then Plan([], map[], map[], 0)
    else WithDirective(Planned(ds[..|ds| - 1]), ds[|ds| - 1])
  }

  method FirstPass(ds: seq<Directive>) returns (plan: Plan)
    requires AllProper(ds)
    ensures plan == Planned(ds)
  {
    hide Normal, IsDir, Holder, Upwards;
    plan := Plan([], map[], map[], 0);
    var i := 0;
    while i < |ds|
      invariant 0 <= i <= |ds| && plan == Planned(ds[..i])
    {
      assert ds[..i + 1][..i] == ds[..i];
      if ds[i].path !in plan.info {
        var parts := Intermediates(ds[i].path);
        var j := 0;
        ghost var was := plan;
        while j < |parts|
          invariant 0 <= j <= |parts| && plan == WithDirs(was, parts[..j])
        {
          assert parts[..j + 1][..j] == parts[..j];
          plan := WithDir(plan, parts[j]);
          j := j + 1;
        }
        assert parts[..j] == parts;
        plan := WithItem(plan, ds[i]);
      }
      i := i + 1;
    }
    assert ds[..i] == ds;
  }

  // ----- what the plan holds -----

  ghost predicate Listed(plan: Plan) {
    && (forall p :: p in plan.keys <==> p in plan.info)
    && forall i, j :: 0 <= i < j < |plan.keys| ==> plan.keys[i] != plan.keys[j]
  }

  /** Every path is normal, a directory just when it ends in a slash, and held by a directory. */
  ghost predicate Rooted(plan: Plan) {
    forall p :: p in plan.info ==>
      && Normal(p) && (plan.info[p].kind == Dir <==> IsDir(p))
      && (Holder(p) == "/" || Holder(p) in plan.info)
  }

  lemma WithDirListed(plan: Plan, p: string)
    requires Listed(plan)
    ensures Listed(WithDir(plan, p))
    ensures WithDir(plan, p).info.Keys == plan.info.Keys + {p}
  {
  }

  lemma {:induction false} WithDirsListed(plan: Plan, ps: seq<string>)
    requires Listed(plan)
    ensures Listed(WithDirs(plan, ps))
    ensures forall p :: p in WithDirs(plan, ps).info <==> p in plan.info || p in ps
    ensures forall p :: p in WithDirs(plan, ps).info ==>
      WithDirs(plan, ps).info[p] == if p in plan.info then plan.info[p] else NoData()
  {
    if ps != [] {
      var front, last := ps[..|ps| - 1], ps[|ps| - 1];
      WithDirsListed(plan, front);
      WithDirListed(WithDirs(plan, front), last);
      assert ps == front + [last];
    }
  }

  lemma WithItemListed(plan: Plan, d: Directive)
    requires Listed(plan) && d.path !in plan.info
    ensures Listed(WithItem(plan, d))
    ensures WithItem(plan, d).info.Keys == plan.info.Keys + {d.path}
    ensures var item := WithItem(plan, d).info[d.path];
      item.kind == d.kind && item.operand == d.operand && item.size == d.size
    ensures forall p :: p in plan.info ==> WithItem(plan, d).info[p] == plan.info[p]
  {
  }

  /** The directories above a path. */
  lemma OnTheWay(path: string)
    requires Normal(path)
    ensures
      var h := Holder(path);
      && (h == "/" || (Normal(h) && IsDir(h) && h in Upwards(h)))
      && (forall p :: p in Upwards(h) ==> Normal(p) && IsDir(p) && (Holder(p) == "/" || Holder(p) in Upwards(h)))
      && path !in Upwards(h)
  {
    HolderNormal(path);
    var h := Holder(path);
    forall p | p in Upwards(h)
      ensures Normal(p) && IsDir(p) && (Holder(p) == "/" || Holder(p) in Upwards(h)) && |p| < |path|
    {
      UpwardsClosed(h, p);
    }
  }

  lemma WithDirectiveRooted(plan: Plan, d: Directive)
    requires Listed(plan) && Rooted(plan) && Proper(d)
    ensures Listed(WithDirective(plan, d)) && Rooted(WithDirective(plan, d))
  {
    hide Normal, IsDir, Holder, Upwards, WithDirs, WithItem, Listed;
    if d.path !in plan.info {
      OnTheWay(d.path);
      var ps := Upwards(Holder(d.path));
      WithDirsListed(plan, ps);
      WithItemListed(WithDirs(plan, ps), d);
    }
  }

  lemma {:induction false} PlannedRooted(ds: seq<Directive>)
    requires AllProper(ds)
    ensures Listed(Planned(ds)) && Rooted(Planned(ds))
  {
    if ds != [] {
      PlannedRooted(ds[..|ds| - 1]);
      WithDirectiveRooted(Planned(ds[..|ds| - 1]), ds[|ds| - 1]);
    }
  }

  // ----- which directives are kept -----

  /** What a directive says is at its path. */
  ghost predicate Says(d: Directive, item: Item) {
    item.kind == d.kind && item.operand == d.operand && item.size == d.size
  }

  /** Every path collected is that of a directive it holds, or of a directory on the way to one. */
  ghost predicate Sourced(plan: Plan, ds: seq<Directive>) {
    forall p :: p in plan.info ==>
      plan.info[p] == NoData() || exists k :: 0 <= k < |ds| && ds[k].path == p && Says(ds[k], plan.info[p])
  }

  lemma Added(plan: Plan, d: Directive)
    requires Listed(plan) && Proper(d)
    ensures var info := WithDirective(plan, d).info;
      && (forall p :: p in plan.info ==> p in info && info[p] == plan.info[p])
      && d.path in info && (d.path !in plan.info ==> Says(d, info[d.path]))
      && forall p :: p in info && p !in plan.info && p != d.path ==> info[p] == NoData()
  {
    hide Normal, IsDir, Holder, Upwards, WithDirs, WithItem, Listed;
    if d.path !in plan.info {
      OnTheWay(d.path);
      var ps := Upwards(Holder(d.path));
      WithDirsListed(plan, ps);
      WithItemListed(WithDirs(plan, ps), d);
    }
  }

  lemma {:induction false} PlannedSourced(ds: seq<Directive>)
    requires AllProper(ds)
    ensures Sourced(Planned(ds), ds)
  {
    hide Proper, Listed, Rooted, WithDirective, Says;
    if ds != [] {
      var front, last := ds[..|ds| - 1], ds[|ds| - 1];
      PlannedSourced(front);
      PlannedRooted(front);
      Added(Planned(front), last);
      forall p | p in Planned(ds).info && Planned(ds).info[p] != NoData()
        ensures exists k :: 0 <= k < |ds| && ds[k].path == p && Says(ds[k], Planned(ds).info[p])
      {
        if p in Planned(front).info {
          var k :| 0 <= k < |front| && front[k].path == p && Says(front[k], Planned(front).info[p]);
          assert ds[k] == front[k];
        } else {
          assert ds[|ds| - 1].path == p;
        }
      }
    }
  }

  /** A path collected as a directory on the way is no file's and no link's. */
  lemma OnlyDirectory(plan: Plan, d: Directive)
    requires Rooted(plan) && Proper(d) && d.path in plan.info && plan.info[d.path] == NoData()
    ensures Says(d, plan.info[d.path])
  {
  }

  /** The first directive for a path is kept, with its kind, operand and size. */
  lemma {:induction false} FirstKept(ds: seq<Directive>, k: nat)
    requires AllProper(ds) && k < |ds| && forall j :: 0 <= j < k ==> ds[j].path != ds[k].path
    ensures ds[k].path in Planned(ds).info && Says(ds[k], Planned(ds).info[ds[k].path])
    decreases |ds|
  {
    hide Proper, Listed, Rooted, WithDirective, Says;
    var front, last := ds[..|ds| - 1], ds[|ds| - 1];
    PlannedRooted(front);
    Added(Planned(front), last);
    if k < |front| {
      FirstKept(front, k);
    } else if last.path in Planned(front).info {
      PlannedSourced(front);
      OnlyDirectory(Planned(front), last);
    }
  }

  // ----- where the data go -----

  /** The same source file has the same size wherever it is named. */
  ghost predicate Consistent(ds: seq<Directive>) {
    forall j, k :: 0 <= j < |ds| && 0 <= k < |ds| && SameFile(ds[j].kind, ds[j].operand, ds[k].kind, ds[k].operand) ==>
      ds[j].size == ds[k].size
  }

  ghost predicate SameFile(k: Kind, a: string, l: Kind, b: string) { k == File && l == File && a == b }

  /** Two items are of one file and at one place, or their pages lie apart. */
  ghost predicate Placed(a: Item, b: Item) {
    if SameFile(a.kind, a.operand, b.kind, b.operand) then a.size == b.size && a.off == b.off
    else a.off + PageUp(a.size) <= b.off || b.off + PageUp(b.size) <= a.off
  }

  ghost predicate InRange(item: Item, next: nat) { item.off % 0x1000 == 0 && item.off + PageUp(item.size) <= next }

  /** Data are on pages of their own below `next`, once for each source file. */
  ghost predicate Ranges(plan: Plan) {
    && plan.next % 0x1000 == 0
    && (forall p :: p in plan.info && plan.info[p].kind != Dir ==> InRange(plan.info[p], plan.next))
    && (forall p, q :: p in plan.info && q in plan.info && p != q ==>
          plan.info[p].kind == Dir || plan.info[q].kind == Dir || Placed(plan.info[p], plan.info[q]))
  }

  /** The source files that have a place, and where: those of the file items. */
  ghost predicate Recorded(plan: Plan) {
    && (forall p :: p in plan.info && plan.info[p].kind == File ==>
          plan.info[p].operand in plan.files && plan.files[plan.info[p].operand] == plan.info[p].off)
    && (forall f :: f in plan.files ==> exists p :: p in plan.info && Of(plan.info[p], f))
  }

  ghost predicate Of(item: Item, f: string) { item.kind == File && item.operand == f }

  lemma {:induction false} WithDirsData(plan: Plan, ps: seq<string>)
    ensures WithDirs(plan, ps).files == plan.files && WithDirs(plan, ps).next == plan.next
  {
    if ps != [] {
      WithDirsData(plan, ps[..|ps| - 1]);
    }
  }

  lemma WithDirsRanges(plan: Plan, ps: seq<string>)
    requires Listed(plan) && Ranges(plan) && Recorded(plan)
    ensures Ranges(WithDirs(plan, ps)) && Recorded(WithDirs(plan, ps))
  {
    hide Listed, WithDirs, InRange, Placed, Of;
    WithDirsListed(plan, ps);
    WithDirsData(plan, ps);
    var more := WithDirs(plan, ps);
    forall f | f in more.files
      ensures exists p :: p in more.info && Of(more.info[p], f)
    {
      var p :| p in plan.info && Of(plan.info[p], f);
      assert p in more.info;
    }
  }

  /** New data goes after everything. */
  lemma AfterAll(next: nat, size: nat, a: Item)
    requires next % 0x1000 == 0
    ensures (next + PageUp(size)) % 0x1000 == 0
    ensures InRange(a, next) ==> InRange(a, next + PageUp(size))
  {
    var q, r := next / 0x1000, (size + 0xFFF) / 0x1000;
    assert next + PageUp(size) == (q + r) * 0x1000;
  }

  /** A plan with a new link, or with the first path of a source file. */
  lemma NewRanges(plan: Plan, d: Directive)
    requires Ranges(plan) && Recorded(plan) && d.path !in plan.info && d.kind != Dir
    requires d.kind == File ==> d.operand !in plan.files
    ensures Ranges(WithItem(plan, d)) && Recorded(WithItem(plan, d))
  {
    hide PageUp;
    var more := WithItem(plan, d);
    var item := more.info[d.path];
    forall p | p in plan.info && plan.info[p].kind != Dir
      ensures InRange(plan.info[p], more.next) && Placed(plan.info[p], item) && Placed(item, plan.info[p])
    {
      AfterAll(plan.next, d.size, plan.info[p]);
    }
    AfterAll(plan.next, d.size, item);
    forall f | f in more.files
      ensures exists p :: p in more.info && Of(more.info[p], f)
    {
      if f in plan.files {
        var p :| p in plan.info && Of(plan.info[p], f);
        assert p in more.info && more.info[p] == plan.info[p];
      } else {
        assert d.path in more.info && Of(more.info[d.path], f);
      }
    }
  }

  /** A plan with another path of a source file that has its place. */
  lemma AgainRanges(plan: Plan, d: Directive)
    requires Ranges(plan) && Recorded(plan) && d.path !in plan.info && d.kind == File && d.operand in plan.files
    requires forall p :: p in plan.info && Of(plan.info[p], d.operand) ==> plan.info[p].size == d.size
    ensures Ranges(WithItem(plan, d)) && Recorded(WithItem(plan, d))
  {
    hide PageUp;
    var more := WithItem(plan, d);
    var item := more.info[d.path];
    var w :| w in plan.info && Of(plan.info[w], d.operand);
    assert plan.info[w] == item;
    forall p | p in plan.info && plan.info[p].kind != Dir
      ensures Placed(plan.info[p], item) && Placed(item, plan.info[p])
    {
      assert p == w || (Placed(plan.info[p], plan.info[w]) && Placed(plan.info[w], plan.info[p]));
    }
    forall f | f in more.files
      ensures exists p :: p in more.info && Of(more.info[p], f)
    {
      var p :| p in plan.info && Of(plan.info[p], f);
      assert p in more.info && more.info[p] == plan.info[p];
    }
  }

  lemma ItemRanges(plan: Plan, d: Directive)
    requires Ranges(plan) && Recorded(plan) && d.path !in plan.info
    requires d.kind == File ==>
      forall p :: p in plan.info && Of(plan.info[p], d.operand) ==> plan.info[p].size == d.size
    ensures Ranges(WithItem(plan, d)) && Recorded(WithItem(plan, d))
  {
    hide InRange, Placed, Of;
    if d.kind == Dir {
      var more := WithItem(plan, d);
      forall f | f in more.files
        ensures exists p :: p in more.info && Of(more.info[p], f)
      {
        var p :| p in plan.info && Of(plan.info[p], f);
        assert p in more.info && more.info[p] == plan.info[p];
      }
    } else if d.kind == File && d.operand in plan.files {
      AgainRanges(plan, d);
    } else {
      NewRanges(plan, d);
    }
  }

  lemma WithDirectiveRanges(plan: Plan, d: Directive)
    requires Listed(plan) && Ranges(plan) && Recorded(plan) && Proper(d)
    requires d.kind == File ==>
      forall p :: p in plan.info && Of(plan.info[p], d.operand) ==> plan.info[p].size == d.size
    ensures Ranges(WithDirective(plan, d)) && Recorded(WithDirective(plan, d))
  {
    hide Normal, IsDir, Holder, Upwards, WithDirs, WithItem, Listed, Ranges, Recorded;
    if d.path !in plan.info {
      OnTheWay(d.path);
      var ps := Upwards(Holder(d.path));
      WithDirsListed(plan, ps);
      WithDirsRanges(plan, ps);
      ItemRanges(WithDirs(plan, ps), d);
    }
  }

  /** Every file's and link's data get whole pages of their own below the end; the same source
      file is placed once, and different ones never overlap. */
  lemma {:induction false} PlannedRanges(ds: seq<Directive>)
    requires AllProper(ds) && Consistent(ds)
    ensures Ranges(Planned(ds)) && Recorded(Planned(ds))
  {
    hide Proper, Listed, Rooted, WithDirective, Ranges, Recorded;
    if ds == [] {
      NoRanges();
    } else {
      var front, last := ds[..|ds| - 1], ds[|ds| - 1];
      PlannedRanges(front);
      PlannedRooted(front);
      PlannedSourced(front);
      var plan := Planned(front);
      if last.kind == File {
        forall p | p in plan.info && Of(plan.info[p], last.operand)
          ensures plan.info[p].size == last.size
        {
          var k :| 0 <= k < |front| && front[k].path == p && Says(front[k], plan.info[p]);
          assert ds[k] == front[k];
        }
      }
      WithDirectiveRanges(plan, last);
    }
  }

  lemma NoRanges()
    ensures Ranges(Plan([], map[], map[], 0)) && Recorded(Plan([], map[], map[], 0))
  {
  }

  // ----- the order of the entries -----

  /** `x` after everything that does not come after it, as a stable sort places it. */
  function Inserted(host: set<string>, s: seq<string>, x: string): seq<string> {
    if s == [] || PathLe(host, s[|s| - 1], x) then s + [x]
    else Inserted(host, s[..|s| - 1], x) + [s[|s| - 1]]
  }

  /** sort_order_paths. */
  function Ordered(host: set<string>, s: seq<string>): seq<string> {
    if s == [] then [] else Inserted(host, Ordered(host, s[..|s| - 1]), s[|s| - 1])
  }

  ghost predicate Sorted(host: set<string>, s: seq<string>) {
    forall i, j :: 0 <= i < j < |s| ==> PathLe(host, s[i], s[j])
  }

  lemma {:induction false} InsertedSame(host: set<string>, s: seq<string>, x: string)
    ensures multiset(Inserted(host, s, x)) == multiset(s) + multiset{x} && |Inserted(host, s, x)| == |s| + 1
  {
    if s != [] && !PathLe(host, s[|s| - 1], x) {
      InsertedSame(host, s[..|s| - 1], x);
      assert s == s[..|s| - 1] + [s[|s| - 1]];
    }
  }

  lemma {:induction false} InsertedSorted(host: set<string>, s: seq<string>, x: string)
    requires Sorted(host, s)
    ensures Sorted(host, Inserted(host, s, x))
  {
    hide PathLe;
    var out := Inserted(host, s, x);
    if s == [] {
    } else if PathLe(host, s[|s| - 1], x) {
      forall i | 0 <= i < |s|
        ensures PathLe(host, s[i], x)
      {
        if i < |s| - 1 {
          PathTrans(host, s[i], s[|s| - 1], x);
        }
      }
    } else {
      var front, last := s[..|s| - 1], s[|s| - 1];
      InsertedSorted(host, front, x);
      InsertedSame(host, front, x);
      PathTotal(host, x, last);
      var more := Inserted(host, front, x);
      forall i | 0 <= i < |more|
        ensures PathLe(host, more[i], last)
      {
        assert more[i] in multiset(more);
        if more[i] != x {
          assert more[i] in multiset(front);
          var k :| 0 <= k < |front| && front[k] == more[i];
        }
      }
    }
  }

  lemma {:induction false} OrderedOk(host: set<string>, s: seq<string>)
    ensures Sorted(host, Ordered(host, s)) && multiset(Ordered(host, s)) == multiset(s)
  {
    hide PathLe;
    if s != [] {
      var front, last := s[..|s| - 1], s[|s| - 1];
      OrderedOk(host, front);
      InsertedSorted(host, Ordered(host, front), last);
      InsertedSame(host, Ordered(host, front), last);
      assert s == front + [last];
    }
  }

  /** Each path is preceded by the directory that holds it, unless that is the root. */
  ghost predicate HoldersFirst(ps: seq<string>) {
    forall i :: 0 <= i < |ps| && Holder(ps[i]) != "/" ==> Holder(ps[i]) in ps[..i]
  }

  lemma HolderBefore(host: set<string>, ps: seq<string>, i: nat)
    requires Sorted(host, ps) && i < |ps| && Normal(ps[i]) && Holder(ps[i]) != "/" && Holder(ps[i]) in ps
    requires ps[i] !in host && forall h :: h in host ==> !IsDir(h)
    ensures Holder(ps[i]) in ps[..i]
  {
    hide PathLe, IsDir, Holder, Normal;
    HolderOrder(host, ps[i]);
    HolderShorter(ps[i]);
    var j :| 0 <= j < |ps| && ps[j] == Holder(ps[i]);
    assert j < i && ps[..i][j] == ps[j];
  }

  lemma HolderAfter(host: set<string>, ps: seq<string>, i: nat)
    requires Sorted(host, ps) && i < |ps| && Normal(ps[i]) && Holder(ps[i]) != "/"
    requires ps[i] in host && forall h :: h in host ==> !IsDir(h)
    ensures Holder(ps[i]) !in ps[..i]
  {
    hide PathLe, IsDir, Holder, Normal;
    HolderOrder(host, ps[i]);
    forall j | 0 <= j < i
      ensures ps[j] != Holder(ps[i])
    {
      assert PathLe(host, ps[j], ps[i]);
    }
  }

  /** Directories come first exactly when no path below one is that of a file on the build host. */
  lemma OrderIff(host: set<string>, plan: Plan)
    requires Listed(plan) && Rooted(plan) && forall h :: h in host ==> !IsDir(h)
    ensures HoldersFirst(Ordered(host, plan.keys)) <==> forall p :: p in plan.info && p in host ==> Holder(p) == "/"
  {
    hide PathLe, IsDir, Holder, Normal, Sorted, Ordered;
    var ps := Ordered(host, plan.keys);
    OrderedOk(host, plan.keys);
    SameMembers(ps, plan.keys);
    if forall p :: p in plan.info && p in host ==> Holder(p) == "/" {
      forall i | 0 <= i < |ps| && Holder(ps[i]) != "/"
        ensures Holder(ps[i]) in ps[..i]
      {
        assert ps[i] in plan.info;
        HolderBefore(host, ps, i);
      }
    } else {
      var p :| p in plan.info && p in host && Holder(p) != "/";
      var i :| 0 <= i < |ps| && ps[i] == p;
      HolderAfter(host, ps, i);
    }
  }

  lemma HolderShorter(p: string)
    requires Normal(p)
    ensures Holder(p) != p
  {
    HolderNormal(p);
  }

  lemma SameMembers(a: seq<string>, b: seq<string>)
    requires multiset(a) == multiset(b)
    ensures |a| == |b| && forall x :: x in a <==> x in b
  {
    assert |multiset(a)| == |a| && |multiset(b)| == |b|;
    forall x
      ensures x in a <==> x in b
    {
      assert x in a <==> x in multiset(a);
      assert x in b <==> x in multiset(b);
    }
  }

  // ----- the entries -----

  const HEADER_SIZE: nat := 32
  const ENTRY_SIZE: nat := 12

  function MetadataSize(ps: seq<string>): nat {
    if ps == [] then 0 else MetadataSize(ps[..|ps| - 1]) + ENTRY_SIZE + |ps[|ps| - 1]| + 1
  }

  /** Where the data starts. */
  function DataStart(ps: seq<string>): nat { PageUp(HEADER_SIZE + MetadataSize(ps)) }

  function EntriesOf(plan: Plan, ps: seq<string>, start: nat): seq<Entry>
    requires forall i :: 0 <= i < |ps| ==> ps[i] in plan.info
  {
    seq(|ps|, i requires 0 <= i < |ps| =>
      Entry(plan.info[ps[i]].kind, ps[i], start + plan.info[ps[i]].off, plan.info[ps[i]].size))
  }
}
