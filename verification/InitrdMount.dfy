/** How fs/initrd/initrd_vfsops.c builds a tree from an image, and what it makes of an image that
    scripts/mkinitrd.py wrote. */
module InitrdMounts {
  import HeapModel
  import opened PathText
  import opened Mkinitrds
  import opened InitrdDatas
  import opened InitrdImages

  /** What a node holds: where a file's data are, the target of a link, or nothing of its own. */
  datatype Body = FileAt(off: nat, size: nat) | Directory | LinkTo(text: string)

  datatype Node = Node(name: string, body: Body, parent: nat)

  datatype Error = BadRead | BadSignature | NoParent

  /** A mount goes well, gives up, panics, or reads past the end of the metadata, of which nothing
      is promised. */
  datatype Result = Mounted(nodes: seq<Node>) | Failed(error: Error) | Panicked | Beyond

  /** The directories seen in the first `i` entries, by path; node `k + 1` is that of entry `k`. */
  function Dirs(es: seq<Entry>, i: nat): map<string, nat>
    requires i <= |es|
  {
    if i == 0 then map["/" := 0]
    else
      var before := Dirs(es, i - 1);
      if es[i - 1].kind == Dir then before[Strip(es[i - 1].path) := i] else before
  }

  function ParentPath(e: Entry): string { Dirname(Strip(e.path)) }

  ghost predicate ParentsKnown(es: seq<Entry>, n: nat)
    requires n <= |es|
  {
    forall i :: 0 <= i < n ==> ParentPath(es[i]) in Dirs(es, i)
  }

  /** The text of a link, without the null at its end; what the image does not have reads as nulls. */
  function LinkText(img: string, off: nat, size: nat): string {
    var n := if size > 0 then size - 1 else 0;
    var text := Clip(img, off, n);
    text + Zeros(n - |text|)
  }

  function BodyOf(img: string, e: Entry): Body {
    match e.kind
    case File => FileAt(e.off, e.size)
    case Dir => Directory
    case Link => LinkTo(LinkText(img, e.off, e.size))
  }

  function NodeOf(img: string, e: Entry, parent: nat): Node { Node(Basename(Strip(e.path)), BodyOf(img, e), parent) }

  ghost predicate Tree(img: string, es: seq<Entry>, nodes: seq<Node>)
    requires |nodes| <= |es|
  {
    forall i :: 0 <= i < |nodes| ==>
      ParentPath(es[i]) in Dirs(es, i) && nodes[i] == NodeOf(img, es[i], Dirs(es, i)[ParentPath(es[i])])
  }

  /** A link for whose text the heap has no chunk: of a size of 0 the source asks for 2^32 bytes. */
  predicate Heavy(e: Entry) { e.kind == Link && !(1 <= e.size <= HeapModel.CHUNK_MAX_SIZE) }

  /** The reader comes to such a link before it misses a parent. */
  ghost predicate Overloads(es: seq<Entry>) {
    exists k :: 0 <= k < |es| && Heavy(es[k]) && ParentsKnown(es, k + 1)
  }

  predicate Signed(img: string) { |img| >= 32 && img[0..6] == "INITv1" }

  /** The size of the metadata, in 64 bits: a start of data within the header wraps. */
  function MetadataBytes(img: string): int
    requires |img| >= 32
  { (Read4(img, 12) - 32) % 0x1_0000_0000_0000_0000 }

  // ----- the entries of any metadata -----

  /** How a reading of entries ends: with the last one, at an entry of unknown kind, of which the
      path is kept, or at one that does not lie within the metadata. */
  datatype Ending = AllRead | Unknown(path: string) | Short

  predicate KnownKind(c: char) { c == 'f' || c == 'd' || c == 'l' }

  function KindOf(c: char): Kind { if c == 'f' then File else if c == 'd' then Dir else Link }

  predicate EntryIn(meta: string, pos: nat) { pos + 12 <= |meta| && pos + 12 + Read2(meta, pos + 2) <= |meta| }

  function EntryRead(meta: string, pos: nat): Entry
    requires EntryIn(meta, pos)
  {
    Entry(KindOf(meta[pos]), meta[pos + 12..pos + 12 + Read2(meta, pos + 2)], Read4(meta, pos + 4),
          Read4(meta, pos + 8))
  }

  /** The next `n` entries from `pos` on. */
  ghost function Entries(meta: string, pos: nat, n: nat): (seq<Entry>, Ending)
    decreases n
  {
    if n == 0 then ([], AllRead)
    else if !EntryIn(meta, pos) then ([], Short)
    else if !KnownKind(meta[pos]) then ([], Unknown(EntryRead(meta, pos).path))
    else
      var e := EntryRead(meta, pos);
      var (rest, ending) := Entries(meta, pos + 12 + |e.path| + 1, n - 1);
      ([e] + rest, ending)
  }

  /** What comes of the entries of an image. */
  ghost predicate Outcome(img: string, es: seq<Entry>, ending: Ending, r: Result) {
    if Overloads(es) then r == Panicked
    else if !ParentsKnown(es, |es|) then r == Failed(NoParent)
    else
      match ending
      case Short => r == Beyond
      case AllRead => r.Mounted? && |r.nodes| == |es| && Tree(img, es, r.nodes)
      case Unknown(path) =>
        if Dirname(Strip(path)) in Dirs(es, |es|) then r.Mounted? && |r.nodes| == |es| && Tree(img, es, r.nodes)
        else r == Failed(NoParent)
  }

  /** initrd_vfs_mount. */
  method Mount(img: string) returns (r: Result)
    ensures |img| < 32 ==> r == Failed(BadRead)
    ensures |img| >= 32 && !Signed(img) ==> r == Failed(BadSignature)
    ensures Signed(img) && MetadataBytes(img) > 0xFFFF ==> r == Panicked
    ensures Signed(img) && MetadataBytes(img) <= 0xFFFF && Read4(img, 12) > |img| ==> r == Failed(BadRead)
    ensures Signed(img) && MetadataBytes(img) <= 0xFFFF && Read4(img, 12) <= |img| ==>
      && 32 <= Read4(img, 12)
      && var (es, ending) := Entries(img[32..Read4(img, 12)], 0, Read2(img, 16)); Outcome(img, es, ending, r)
  {
    hide Read2, Entries, Outcome;
    if |img| < 32 {
      return Failed(BadRead);
    }
    if img[0..6] != "INITv1" {
      return Failed(BadSignature);
    }
    StartRange(img);
    if MetadataBytes(img) > 0xFFFF {
      return Panicked;
    }
    var start := Read4(img, 12);
    if start > |img| {
      return Failed(BadRead);
    }
    hide Read4, MetadataBytes;
    r := ReadTree(img, img[32..start], Read2(img, 16));
  }

  lemma StartRange(img: string)
    requires |img| >= 32
    ensures MetadataBytes(img) <= 0xFFFF ==> Read4(img, 12) >= 32
  {
  }

  /** The loop over the entries.  One of unknown kind is not stepped over, and so is met again until
      the count is used up. */
  method ReadTree(img: string, meta: string, count: nat) returns (r: Result)
    ensures var (es, ending) := Entries(meta, 0, count); Outcome(img, es, ending, r)
  {
    hide Read2, Read4, Dirs, Strip, Dirname, Basename, Entries, Tree, ParentsKnown, KnownKind, KindOf, Heavy, BodyOf,
      Overloads;
    ghost var (es, ending) := Entries(meta, 0, count);
    var nodeMap: map<string, nat> := map["/" := 0];
    var dirpath, dirNode: nat := "/", 0;
    var nodes: seq<Node> := [];
    var pos: nat, i: nat := 0, 0;
    FirstDirs(es);
    NoTree(img, es);
    assert es[0..] == es;
    while i < count
      invariant i <= count && |nodes| <= |es| && nodeMap == Dirs(es, |nodes|)
      invariant dirpath in nodeMap && nodeMap[dirpath] == dirNode
      invariant Tree(img, es, nodes) && forall k :: 0 <= k < |nodes| ==> !Heavy(es[k])
      invariant
        || (i == |nodes| && Entries(meta, pos, count - i) == (es[|nodes|..], ending))
        || Stuck(meta, pos, es, ending, |nodes|)
    {
      EntriesStep(meta, pos, count - i);
      if !EntryIn(meta, pos) {
        TreeKnown(img, es, nodes);
        return Beyond;
      }
      var len := Read2(meta, pos + 2);
      var path := Strip(meta[pos + 12..pos + 12 + len]);
      var dirname := Dirname(path);
      if dirname != dirpath {
        if dirname !in nodeMap {
          TreeKnown(img, es, nodes);
          return Failed(NoParent);
        }
        dirNode := nodeMap[dirname];
        dirpath := dirname;
      }
      if KnownKind(meta[pos]) {
        var e := EntryRead(meta, pos);
        if Heavy(e) {
          HeavyAt(img, es, nodes);
          return Panicked;
        }
        var node := Node(Basename(path), BodyOf(img, e), dirNode);
        NextDirs(es, |nodes|);
        TreeMore(img, es, nodes, node);
        nodes := nodes + [node];
        if e.kind == Dir {
          nodeMap := nodeMap[path := |nodes|];
          dirNode := |nodes|;
          dirpath := path;
        }
        pos := pos + 12 + len + 1;
      }
      i := i + 1;
    }
    NoneLeft(meta, pos);
    TreeKnown(img, es, nodes);
    return Mounted(nodes);
  }

  /** The next entry is the first link that there is no chunk for. */
  lemma HeavyAt(img: string, es: seq<Entry>, nodes: seq<Node>)
    requires |nodes| < |es| && Tree(img, es, nodes) && Heavy(es[|nodes|])
    requires ParentPath(es[|nodes|]) in Dirs(es, |nodes|)
    ensures Overloads(es)
  {
    hide Dirs, ParentPath, NodeOf, Heavy;
    assert ParentsKnown(es, |nodes| + 1);
  }

  lemma NoTree(img: string, es: seq<Entry>)
    ensures Tree(img, es, [])
  {
  }

  lemma TreeMore(img: string, es: seq<Entry>, nodes: seq<Node>, node: Node)
    requires |nodes| < |es| && Tree(img, es, nodes) && ParentPath(es[|nodes|]) in Dirs(es, |nodes|)
    requires node == NodeOf(img, es[|nodes|], Dirs(es, |nodes|)[ParentPath(es[|nodes|])])
    ensures Tree(img, es, nodes + [node])
  {
    hide Dirs, ParentPath, NodeOf;
  }

  /** What a tree says of the parents: those of its nodes are known. */
  lemma TreeKnown(img: string, es: seq<Entry>, nodes: seq<Node>)
    requires |nodes| <= |es| && Tree(img, es, nodes) && forall k :: 0 <= k < |nodes| ==> !Heavy(es[k])
    ensures |nodes| == |es| ==> ParentsKnown(es, |es|) && !Overloads(es)
    ensures |nodes| < |es| && ParentPath(es[|nodes|]) !in Dirs(es, |nodes|) ==>
      !ParentsKnown(es, |es|) && !Overloads(es)
  {
    hide Dirs, ParentPath, NodeOf, Heavy;
  }

  /** The reader stands at an entry of unknown kind, with nothing left to read. */
  ghost predicate Stuck(meta: string, pos: nat, es: seq<Entry>, ending: Ending, n: nat) {
    && n == |es| && EntryIn(meta, pos) && !KnownKind(meta[pos]) && ending == Unknown(EntryRead(meta, pos).path)
    && ParentPath(EntryRead(meta, pos)) in Dirs(es, n)
  }

  lemma EntriesStep(meta: string, pos: nat, n: nat)
    requires n > 0
    ensures
      var (es, ending) := Entries(meta, pos, n);
      if !EntryIn(meta, pos) then es == [] && ending == Short
      else if !KnownKind(meta[pos]) then es == [] && ending == Unknown(EntryRead(meta, pos).path)
      else
        var e := EntryRead(meta, pos);
        es != [] && es[0] == e && Entries(meta, pos + 12 + |e.path| + 1, n - 1) == (es[1..], ending)
  {
    hide EntryIn, KnownKind, EntryRead;
  }

  lemma NoneLeft(meta: string, pos: nat)
    ensures Entries(meta, pos, 0) == ([], AllRead)
  {
  }

  lemma FirstDirs(es: seq<Entry>)
    ensures Dirs(es, 0) == map["/" := 0] && |FormatEntries(es[..0])| == 0
  {
  }

  lemma NextDirs(es: seq<Entry>, i: nat)
    requires i < |es|
    ensures Dirs(es, i + 1) == if es[i].kind == Dir then Dirs(es, i)[Strip(es[i].path) := i + 1] else Dirs(es, i)
  {
  }

  // ----- images of the writer -----

  ghost predicate ProperEntry(e: Entry) { Normal(e.path) && (e.kind == Dir <==> IsDir(e.path)) }

  ghost predicate ProperEntries(es: seq<Entry>) { forall i :: 0 <= i < |es| ==> ProperEntry(es[i]) }

  ghost predicate DirBefore(es: seq<Entry>, i: nat, key: string)
    requires i <= |es|
  { exists j :: 0 <= j < i && es[j].kind == Dir && Strip(es[j].path) == key }

  lemma {:induction false} DirsKeys(es: seq<Entry>, i: nat, key: string)
    requires i <= |es|
    ensures key in Dirs(es, i) <==> key == "/" || DirBefore(es, i, key)
  {
    hide Strip;
    if i > 0 {
      DirsKeys(es, i - 1, key);
      NextDirs(es, i - 1);
      if es[i - 1].kind == Dir && Strip(es[i - 1].path) == key {
        assert DirBefore(es, i, key);
      }
    } else {
      FirstDirs(es);
    }
  }

  lemma DirName(e: Entry, f: Entry)
    requires ProperEntry(e) && ProperEntry(f) && Holder(f.path) != "/"
    ensures e.kind == Dir && Strip(e.path) == Strip(Holder(f.path)) <==> e.path == Holder(f.path)
  {
    HolderNormal(f.path);
    StripNormal(e.path);
    StripNormal(Holder(f.path));
    var h := Holder(f.path);
    if IsDir(e.path) {
      assert e.path == Strip(e.path) + "/" && h == Strip(h) + "/";
    }
  }

  lemma ParentOf(e: Entry)
    requires ProperEntry(e)
    ensures ParentPath(e) == if Holder(e.path) == "/" then "/" else Strip(Holder(e.path))
    ensures Holder(e.path) != "/" ==> Strip(Holder(e.path)) != "/"
  {
    DirnameNormal(e.path);
    HolderNormal(e.path);
    if Holder(e.path) != "/" {
      StripNormal(Holder(e.path));
    }
  }

  ghost function Paths(es: seq<Entry>): seq<string> { seq(|es|, i requires 0 <= i < |es| => es[i].path) }

  /** The reader finds the parent of an entry exactly when the directory that holds it came before. */
  lemma KnownIff(es: seq<Entry>, i: nat)
    requires ProperEntries(es) && i < |es|
    ensures ParentPath(es[i]) in Dirs(es, i) <==> Holder(es[i].path) == "/" || Holder(es[i].path) in Paths(es)[..i]
  {
    hide Strip, Holder, Dirname, Normal, IsDir, Dirs, ProperEntry;
    ParentOf(es[i]);
    var h := Holder(es[i].path);
    DirsKeys(es, i, ParentPath(es[i]));
    if h != "/" {
      forall j | 0 <= j < i
        ensures es[j].kind == Dir && Strip(es[j].path) == Strip(h) <==> Paths(es)[..i][j] == h
      {
        DirName(es[j], es[i]);
      }
    }
  }

  lemma ParentsIff(es: seq<Entry>)
    requires ProperEntries(es)
    ensures ParentsKnown(es, |es|) <==> HoldersFirst(Paths(es))
  {
    hide Holder, Dirs, ParentPath, ProperEntry;
    forall i | 0 <= i < |es|
      ensures ParentPath(es[i]) in Dirs(es, i) <==>
        (Holder(Paths(es)[i]) == "/" || Holder(Paths(es)[i]) in Paths(es)[..i])
    {
      KnownIff(es, i);
    }
  }

  // ----- writing an image -----

  lemma OrderedKeys(host: set<string>, plan: Plan)
    requires Listed(plan)
    ensures forall i :: 0 <= i < |Ordered(host, plan.keys)| ==> Ordered(host, plan.keys)[i] in plan.info
  {
    hide Ordered;
    var ps := Ordered(host, plan.keys);
    OrderedOk(host, plan.keys);
    SameMembers(ps, plan.keys);
    assert forall i :: 0 <= i < |ps| ==> ps[i] in ps;
  }

  /** The entries of an image for some directives. */
  ghost function EntriesFor(ds: seq<Directive>, host: set<string>): (es: seq<Entry>)
    requires AllProper(ds)
  {
    var plan := Planned(ds);
    PlannedRooted(ds);
    OrderedKeys(host, plan);
    EntriesOf(plan, Ordered(host, plan.keys), DataStart(Ordered(host, plan.keys)))
  }

  ghost function StartFor(ds: seq<Directive>, host: set<string>): nat
    requires AllProper(ds)
  { DataStart(Ordered(host, Planned(ds).keys)) }

  /** What the fields of the header and the entries have room for. */
  ghost predicate Encodable(es: seq<Entry>, start: nat, size: nat) {
    start + size < 0xFFFF_FFFF && 0 < |es| < 0xFFFF && forall i :: 0 <= i < |es| ==> Fits(es[i])
  }

  lemma EntriesFacts(ds: seq<Directive>, host: set<string>)
    requires AllProper(ds)
    ensures ProperEntries(EntriesFor(ds, host)) && Paths(EntriesFor(ds, host)) == Ordered(host, Planned(ds).keys)
  {
    hide Planned, Ordered, Normal, IsDir, Holder, DataStart;
    PlannedRooted(ds);
    OrderedKeys(host, Planned(ds));
  }

  /** The entries are the paths collected, in order, with what was collected of them. */
  lemma EntriesAt(ds: seq<Directive>, host: set<string>)
    requires AllProper(ds)
    ensures
      var plan, es, ps := Planned(ds), EntriesFor(ds, host), Ordered(host, Planned(ds).keys);
      && |es| == |ps| == |plan.keys| && (forall p :: p in ps <==> p in plan.info)
      && forall i :: 0 <= i < |es| ==>
           && ps[i] in plan.info
           && var item := plan.info[ps[i]]; es[i] == Entry(item.kind, ps[i], StartFor(ds, host) + item.off, item.size)
  {
    hide Planned, Ordered, DataStart;
    PlannedRooted(ds);
    OrderedKeys(host, Planned(ds));
    OrderedOk(host, Planned(ds).keys);
    SameMembers(Ordered(host, Planned(ds).keys), Planned(ds).keys);
  }

  /** The reader never misses a parent in what the writer wrote exactly when no path below a directory
      is that of a file on the build host. */
  lemma WriterReader(ds: seq<Directive>, host: set<string>)
    requires AllProper(ds) && forall h :: h in host ==> !IsDir(h)
    ensures
      var es := EntriesFor(ds, host);
      ParentsKnown(es, |es|) <==> forall p :: p in Planned(ds).info && p in host ==> Holder(p) == "/"
  {
    hide EntriesFor, Planned, Ordered, ParentsKnown, HoldersFirst, IsDir, Holder;
    EntriesFacts(ds, host);
    ParentsIff(EntriesFor(ds, host));
    PlannedRooted(ds);
    OrderIff(host, Planned(ds));
  }

  function HostFile(): seq<Directive> { [Directive(File, "/a/b", "b", 0)] }

  /** One file below a directory, where the build host has a file too: the tool writes the image, and
      the reader misses a parent before anything else is wrong. */
  lemma HostFileFails()
    ensures
      var ds, host := HostFile(), {"/a/b"};
      && AllProper(ds) && !ParentsKnown(EntriesFor(ds, host), |EntriesFor(ds, host)|)
      && Encodable(EntriesFor(ds, host), StartFor(ds, host), Planned(ds).next)
      && StartFor(ds, host) <= 0x1_0000 && !Overloads(EntriesFor(ds, host))
  {
    hide EntriesFor, ParentsKnown, Planned, Holder, IsDir, Normal, Overloads;
    var ds := HostFile();
    HostFileHeld();
    AlonePlanned(ds[0]);
    WriterReader(ds, {"/a/b"});
    HostFilePlan();
    HostFileEntries();
  }

  lemma HostFilePlan()
    ensures AllProper(HostFile())
    ensures var plan := Planned(HostFile());
      && plan.keys == ["/a/", "/a/b"] && plan.next == 0
      && plan.info == map["/a/" := NoData(), "/a/b" := Item(File, "b", 0, 0)]
  {
    hide Normal, IsDir, Holder;
    HostFileHeld();
    var ds := HostFile();
    assert ds[..0] == [];
    var way := Upwards("/a/");
    RootUpwards();
    assert way == Upwards("/") + ["/a/"] == ["/a/"];
    assert way[..0] == [] && way[0] == "/a/";
    assert Planned(ds) == WithDirective(Planned(ds[..0]), ds[0]);
  }

  lemma HostFileEntries()
    requires AllProper(HostFile())
    ensures
      var ds, host := HostFile(), {"/a/b"};
      && Encodable(EntriesFor(ds, host), StartFor(ds, host), Planned(ds).next)
      && StartFor(ds, host) <= 0x1_0000 && !Overloads(EntriesFor(ds, host))
  {
    hide Planned, Ordered, ParentsKnown, EntriesFor;
    HostFilePlan();
    var ds, host := HostFile(), {"/a/b"};
    EntriesAt(ds, host);
    MetadataBound(Ordered(host, Planned(ds).keys), 4);
  }

  lemma {:induction false} MetadataBound(ps: seq<string>, n: nat)
    requires forall i :: 0 <= i < |ps| ==> |ps[i]| <= n
    ensures MetadataSize(ps) <= |ps| * (13 + n)
  {
    if ps != [] {
      MetadataBound(ps[..|ps| - 1], n);
      assert |ps| * (13 + n) == (|ps| - 1) * (13 + n) + (13 + n);
    }
  }

  lemma HostFileHeld()
    ensures Normal("/a/b") && !IsDir("/a/b") && Holder("/a/b") == "/a/"
    ensures Normal("/a/") && IsDir("/a/") && Holder("/a/") == "/"
  {
    assert Strip("/a/") == Strip("/a") == "/a" && DropName("/a") == DropName("/") == "/";
    assert Strip("/a/b") == "/a/b";
    assert "/a/b"[..3] == "/a/" && DropName("/a/") == "/a/";
  }

  lemma AlonePlanned(d: Directive)
    requires Proper(d)
    ensures AllProper([d]) && d.path in Planned([d]).info
  {
    hide Normal, IsDir, Holder, Upwards, WithDirs;
    var ds := [d];
    assert Planned(ds) == WithDirective(Planned(ds[..0]), d);
  }

  lemma {:induction false} MetadataLength(es: seq<Entry>)
    ensures |FormatEntries(es)| == MetadataSize(Paths(es))
  {
    hide FormatEntry;
    if es != [] {
      var front, last := es[..|es| - 1], es[|es| - 1];
      MetadataLength(front);
      FormattedSplit(es, |es| - 1);
      assert es[|es| - 1..] == [last] && Paths(es)[..|es| - 1] == Paths(front);
      var one := [last];
      assert FormatEntries(one) == FormatEntry(one[0]) + FormatEntries(one[1..]);
    }
  }

  lemma Roomy(es: seq<Entry>)
    ensures 32 + |FormatEntries(es)| <= DataStart(Paths(es))
  {
    MetadataLength(es);
  }

  /** What the reader makes of the entries from the `i`-th on is these entries. */
  lemma {:induction false} ReadBack(es: seq<Entry>, start: nat, size: nat, data: string, i: nat)
    requires 32 + |FormatEntries(es)| <= start && i <= |es| && forall k :: 0 <= k < |es| ==> Fits(es[k])
    ensures |Image(es, start, size, data)| >= start
    ensures Entries(Image(es, start, size, data)[32..start], |FormatEntries(es[..i])|, |es| - i) == (es[i..], AllRead)
    decreases |es| - i
  {
    hide Image, FormatEntries, Fits, EntryAt, Entries, EntryIn, EntryRead, KnownKind;
    ImageMetadata(es, start, size, data);
    var meta, pos := Image(es, start, size, data)[32..start], |FormatEntries(es[..i])|;
    if i < |es| {
      ImageEntry(es, start, size, data, i);
      ReadBack(es, start, size, data, i + 1);
      EntryReadIs(meta, pos, es[i]);
      EntriesStep(meta, pos, |es| - i);
      var xs := Entries(meta, pos, |es| - i).0;
      assert xs == [xs[0]] + xs[1..];
      assert es[i..] == [es[i]] + es[i + 1..];
    } else {
      NoneLeft(meta, pos);
      assert es[i..] == [];
    }
  }

  lemma EntryReadIs(meta: string, pos: nat, e: Entry)
    requires EntryAt(meta, pos, e)
    ensures EntryIn(meta, pos) && KnownKind(meta[pos]) && EntryRead(meta, pos) == e
  {
  }

  /** An image has a good header, and its entries are what the reader reads. */
  lemma ImageRead(es: seq<Entry>, start: nat, size: nat, data: string)
    requires 32 + |FormatEntries(es)| <= start && Encodable(es, start, size)
    ensures
      var img := Image(es, start, size, data);
      && Signed(img) && Read4(img, 12) == start <= |img| && MetadataBytes(img) == start - 32
      && Entries(img[32..start], 0, Read2(img, 16)) == (es, AllRead)
  {
    hide Image, FormatEntries, Read2, Read4, Fits, Entries;
    ImageHeader(es, start, size, data);
    ReadBack(es, start, size, data, 0);
    NoEntries(es);
    assert es[0..] == es;
  }

  /** The image for some directives, with the source files of the build host. */
  ghost function ImageFor(ds: seq<Directive>, host: set<string>, src: map<string, string>): string
    requires AllProper(ds) && Supplied(ds, src)
  {
    EntriesFacts(ds, host);
    Roomy(EntriesFor(ds, host));
    Image(EntriesFor(ds, host), StartFor(ds, host), Planned(ds).next, DataOf(ds, src))
  }

  /** The second pass: header, entries and padding, then the data. */
  method MakeImage(ds: seq<Directive>, host: set<string>, src: map<string, string>) returns (ok: bool, img: string)
    requires AllProper(ds) && Supplied(ds, src)
    ensures 32 + |FormatEntries(EntriesFor(ds, host))| <= StartFor(ds, host)
    ensures ok <==> Encodable(EntriesFor(ds, host), StartFor(ds, host), Planned(ds).next)
    ensures ok ==> img == ImageFor(ds, host, src)
  {
    hide Planned, Ordered, FormatEntry, FormatHeader, DataStart, FormatEntries, DataOf, Supplied;
    var plan := FirstPass(ds);
    EntriesFacts(ds, host);
    PlannedRooted(ds);
    OrderedKeys(host, plan);
    var paths := Ordered(host, plan.keys);
    var start := DataStart(paths);
    ghost var es := EntriesFor(ds, host);
    Roomy(es);
    if !(start + plan.next < 0xFFFF_FFFF && 0 < |paths| < 0xFFFF) {
      return false, [];
    }
    var i: nat, meta: string := 0, [];
    NoEntries(es);
    while i < |paths|
      invariant 0 <= i <= |paths| && meta == FormatEntries(es[..i]) && forall k :: 0 <= k < i ==> Fits(es[k])
    {
      var item := plan.info[paths[i]];
      var e := Entry(item.kind, paths[i], start + item.off, item.size);
      assert e == es[i];
      if !Fits(e) {
        return false, [];
      }
      MoreEntries(es, i);
      meta := meta + FormatEntry(e);
      i := i + 1;
    }
    assert es[..i] == es;
    img := FormatHeader(start + plan.next, start, |paths|) + meta;
    img := img + seq(start - 32 - |meta|, k => '\0');
    var data := WriteData(ds, src);
    img := img + data;
    ok := true;
  }

  lemma NoEntries(es: seq<Entry>)
    ensures FormatEntries(es[..0]) == []
  {
  }

  lemma MoreEntries(es: seq<Entry>, i: nat)
    requires i < |es|
    ensures FormatEntries(es[..i + 1]) == FormatEntries(es[..i]) + FormatEntry(es[i])
  {
    hide FormatEntry;
    FormattedSplit(es[..i + 1], i);
    var one := [es[i]];
    assert es[..i + 1][..i] == es[..i] && es[..i + 1][i..] == one;
    assert FormatEntries(one) == FormatEntry(one[0]) + FormatEntries(one[1..]);
  }

  /** Mounting an image just written: the kernel panics exactly when the metadata, with the header and
      the padding, take more than 64 KiB, or it comes to a link that is too long; else the nodes are
      the entries, each under the directory that holds it, or no parent is found, which is so exactly
      when a path below a directory is that of a file on the build host. */
  method WriteAndMount(ds: seq<Directive>, host: set<string>, src: map<string, string>)
    returns (ok: bool, img: string, r: Result)
    requires AllProper(ds) && Supplied(ds, src) && forall h :: h in host ==> !IsDir(h)
    ensures ok <==> Encodable(EntriesFor(ds, host), StartFor(ds, host), Planned(ds).next)
    ensures ok ==> img == ImageFor(ds, host, src)
    ensures ok ==> (r == Panicked <==> StartFor(ds, host) > 0x1_0000 || Overloads(EntriesFor(ds, host)))
    ensures ok && r != Panicked ==>
      var es := EntriesFor(ds, host);
      if forall p :: p in Planned(ds).info && p in host ==> Holder(p) == "/"
      then r.Mounted? && |r.nodes| == |es| && Tree(img, es, r.nodes)
      else r == Failed(NoParent)
  {
    hide Planned, EntriesFor, StartFor, Image, ParentsKnown, Tree, Encodable, Holder, FormatEntries, Read2, Read4,
      Entries, MetadataBytes, Overloads, DataOf;
    ok, img := MakeImage(ds, host, src);
    r := Failed(BadRead);
    if ok {
      ImageRead(EntriesFor(ds, host), StartFor(ds, host), Planned(ds).next, DataOf(ds, src));
      StartAligned(ds, host);
      WriterReader(ds, host);
      r := Mount(img);
    }
  }

  lemma StartAligned(ds: seq<Directive>, host: set<string>)
    requires AllProper(ds)
    ensures StartFor(ds, host) % 0x1000 == 0
  {
    hide Planned, Ordered, MetadataSize;
  }

  // ----- images that the kernel panics on -----

  function LongPath(): (p: string)
    ensures |p| == 65500
  { "/" + seq(65499, i => 'a') }

  lemma LongNormal()
    ensures Normal(LongPath()) && !IsDir(LongPath()) && Holder(LongPath()) == "/"
  {
    var p := LongPath();
    assert p[0] == '/' && forall i :: 0 < i < |p| ==> p[i] == 'a';
    StripNormal(p);
    HolderNormal(p);
    assert forall i :: 0 <= i < |Holder(p)| ==> Holder(p)[i] == p[i];
  }

  /** One link with a long path: the tool writes the image, and mounting it panics. */
  lemma LongPathPanics(target: string)
    requires |target| < 100 && Ascii(target)
    ensures
      var ds := [Directive(Link, LongPath(), target, |target| + 1)];
      AllProper(ds) && Encodable(EntriesFor(ds, {}), StartFor(ds, {}), Planned(ds).next) && StartFor(ds, {}) > 0x1_0000
  {
    hide LongPath, Normal, IsDir, Holder;
    LongNormal();
    var d := Directive(Link, LongPath(), target, |target| + 1);
    AloneAtTop(d);
    AloneEntry(d);
  }

  lemma AloneAtTop(d: Directive)
    requires Proper(d) && Holder(d.path) == "/" && d.kind == Link
    ensures AllProper([d]) && Planned([d]).keys == [d.path] && Planned([d]).next == PageUp(d.size)
    ensures Planned([d]).info == map[d.path := Item(Link, d.operand, d.size, 0)]
  {
    hide Normal, IsDir, Holder;
    var ds := [d];
    assert ds[..0] == [];
    assert Planned(ds) == WithDirective(Planned(ds[..0]), d);
    RootUpwards();
  }

  lemma AloneEntry(d: Directive)
    requires AllProper([d]) && Planned([d]).keys == [d.path]
    requires Planned([d]).info == map[d.path := Item(Link, d.operand, d.size, 0)]
    ensures StartFor([d], {}) == PageUp(32 + 12 + |d.path| + 1)
    ensures EntriesFor([d], {}) == [Entry(Link, d.path, PageUp(32 + 12 + |d.path| + 1), d.size)]
  {
    hide Planned, PathLe, PageUp;
    var one := [d.path];
    assert one[..0] == [];
    assert Ordered({}, one) == Inserted({}, Ordered({}, one[..0]), d.path) == one;
    assert MetadataSize(one) == MetadataSize(one[..0]) + 12 + |d.path| + 1;
  }

  /** One link with a long target: its metadata are short, and mounting panics on its text. */
  lemma LongTargetPanics(target: string)
    requires HeapModel.CHUNK_MAX_SIZE <= |target| < 0x8000_0000 && Ascii(target)
    ensures
      var ds := [Directive(Link, "/a", target, |target| + 1)];
      && AllProper(ds) && Encodable(EntriesFor(ds, {}), StartFor(ds, {}), Planned(ds).next)
      && StartFor(ds, {}) <= 0x1_0000 && Overloads(EntriesFor(ds, {}))
  {
    hide Normal, IsDir, Holder, Planned;
    TopPath("/a");
    var d := Directive(Link, "/a", target, |target| + 1);
    AloneAtTop(d);
    AloneEntry(d);
    var es := EntriesFor([d], {});
    KnownIff(es, 0);
    assert ParentsKnown(es, 1);
  }

  /** When no parent is missing, the reader comes to every link: it is too much for one exactly when
      some path that was collected has one too long. */
  lemma OverloadsIff(ds: seq<Directive>, host: set<string>)
    requires AllProper(ds) && ParentsKnown(EntriesFor(ds, host), |EntriesFor(ds, host)|)
    ensures Overloads(EntriesFor(ds, host)) <==>
      exists p :: p in Planned(ds).info && Planned(ds).info[p].kind == Link &&
        Planned(ds).info[p].size > HeapModel.CHUNK_MAX_SIZE
  {
    hide Planned, Ordered, EntriesFor, StartFor, Dirs, ParentPath;
    PlannedSourced(ds);
    EntriesAt(ds, host);
    var plan, es, ps := Planned(ds), EntriesFor(ds, host), Ordered(host, Planned(ds).keys);
    forall p | p in plan.info && plan.info[p].kind == Link
      ensures plan.info[p].size >= 1
    {
      var k :| 0 <= k < |ds| && ds[k].path == p && Says(ds[k], plan.info[p]);
      assert Proper(ds[k]);
    }
    if p :| p in plan.info && plan.info[p].kind == Link && plan.info[p].size > HeapModel.CHUNK_MAX_SIZE {
      assert p in ps;
      var k :| 0 <= k < |ps| && ps[k] == p;
      assert Heavy(es[k]) && ParentsKnown(es, k + 1);
    }
  }

  /** Writing that image and mounting it. */
  method HostFileMount() returns (r: Result)
    ensures r == Failed(NoParent)
  {
    hide EntriesFor, ParentsKnown, Planned, Holder, IsDir, Overloads, Encodable, StartFor, Tree;
    HostFileHeld();
    HostFileFails();
    WriterReader(HostFile(), {"/a/b"});
    var ok, img;
    ok, img, r := WriteAndMount(HostFile(), {"/a/b"}, map["b" := ""]);
  }

  // ----- the names on the way to a node -----

  /** Parents come before their children; node `k` of the list is number `k + 1`, and 0 the root. */
  ghost predicate Downward(nodes: seq<Node>) { forall i :: 0 <= i < |nodes| ==> nodes[i].parent <= i }

  /** The names from the root to a node. */
  ghost function PathTo(nodes: seq<Node>, k: nat): string
    requires Downward(nodes) && k <= |nodes|
  {
    if k == 0 then "" else PathTo(nodes, nodes[k - 1].parent) + "/" + nodes[k - 1].name
  }

  lemma {:induction false} DirsValue(es: seq<Entry>, i: nat, key: string)
    requires i <= |es| && key in Dirs(es, i)
    ensures var v := Dirs(es, i)[key];
      v <= i && (v == 0 ==> key == "/") && (v > 0 ==> es[v - 1].kind == Dir && Strip(es[v - 1].path) == key)
  {
    hide Strip;
    if i > 0 {
      NextDirs(es, i - 1);
      if key in Dirs(es, i - 1) {
        DirsValue(es, i - 1, key);
      }
    } else {
      FirstDirs(es);
    }
  }

  /** A path is the directory that holds it, a slash and its name. */
  lemma NameLast(e: Entry)
    requires ProperEntry(e)
    ensures Strip(e.path) == (if ParentPath(e) == "/" then "" else ParentPath(e)) + "/" + Basename(Strip(e.path))
  {
    hide Normal, Strip, DropName, Dirname, Basename, Holder;
    ParentOf(e);
    HolderNormal(e.path);
    DirnameNormal(e.path);
    BasenameNormal(e.path);
    var t, h := Strip(e.path), Holder(e.path);
    assert t == h + t[|h|..];
  }

  lemma BasenameNormal(p: string)
    requires Normal(p)
    ensures |Holder(p)| <= |Strip(p)| && Basename(Strip(p)) == Strip(p)[|Holder(p)|..]
  {
    StripNormal(p);
    assert Strip(Strip(p)) == Strip(p);
  }

  /** Walking up from a node to the root spells its path. */
  lemma {:induction false} SpellsPath(img: string, es: seq<Entry>, nodes: seq<Node>, k: nat)
    requires ProperEntries(es) && |nodes| <= |es| && Tree(img, es, nodes) && k < |nodes|
    ensures Downward(nodes) && PathTo(nodes, k + 1) == Strip(es[k].path)
  {
    hide Strip, Basename, ParentPath, Dirs, ProperEntry, Tree, Downward;
    Downhill(img, es, nodes);
    NodeAt(img, es, nodes, k);
    NameLast(es[k]);
    var v := nodes[k].parent;
    if v > 0 {
      NotSlash(es[v - 1]);
      SpellsPath(img, es, nodes, v - 1);
    }
    assert PathTo(nodes, k + 1) == PathTo(nodes, v) + "/" + nodes[k].name;
  }

  lemma NodeAt(img: string, es: seq<Entry>, nodes: seq<Node>, k: nat)
    requires |nodes| <= |es| && Tree(img, es, nodes) && k < |nodes|
    ensures var v := nodes[k].parent;
      && nodes[k].name == Basename(Strip(es[k].path)) && v <= k && (v == 0 ==> ParentPath(es[k]) == "/")
      && (v > 0 ==> es[v - 1].kind == Dir && Strip(es[v - 1].path) == ParentPath(es[k]))
  {
    hide Strip, Basename, ParentPath, Dirs, BodyOf;
    DirsValue(es, k, ParentPath(es[k]));
  }

  lemma Downhill(img: string, es: seq<Entry>, nodes: seq<Node>)
    requires |nodes| <= |es| && Tree(img, es, nodes)
    ensures Downward(nodes)
  {
    hide Tree;
    forall i | 0 <= i < |nodes|
      ensures nodes[i].parent <= i
    {
      NodeAt(img, es, nodes, i);
    }
  }

  lemma NotSlash(e: Entry)
    ensures Strip(e.path) != "/"
  {
  }

  // ----- what is read through the tree -----

  lemma ClipTail(a: string, b: string, off: nat, n: nat)
    ensures Clip(a + b, |a| + off, n) == Clip(b, off, n)
  {
  }

  /** The data of an image lie after its start. */
  lemma ImageData(ds: seq<Directive>, host: set<string>, src: map<string, string>, off: nat, n: nat)
    requires AllProper(ds) && Supplied(ds, src)
    ensures Clip(ImageFor(ds, host, src), StartFor(ds, host) + off, n) == Clip(DataOf(ds, src), off, n)
  {
    hide Planned, EntriesFor, Clip, DataOf, FormatHeader, FormatEntries, DataStart;
    EntriesFacts(ds, host);
    var es, start := EntriesFor(ds, host), StartFor(ds, host);
    Roomy(es);
    var head := FormatHeader(start + Planned(ds).next, start, |es|) + FormatEntries(es)
                + seq(start - 32 - |FormatEntries(es)|, i => '\0');
    ClipTail(head, DataOf(ds, src), off, n);
  }

  lemma TextOf(s: string, off: nat, target: string)
    requires Clip(s, off, |target| + 1) == target + "\0"
    ensures LinkText(s, off, |target| + 1) == target
  {
    var c := Clip(s, off, |target|);
    assert c == Clip(s, off, |target| + 1)[..|target|];
  }

  /** Where nothing drifted before its origin, a mounted link has its target, and a mounted file is read
      as its source. */
  lemma MountedData(ds: seq<Directive>, host: set<string>, src: map<string, string>, i: nat, k: nat)
    requires AllProper(ds) && Supplied(ds, src) && i < |EntriesFor(ds, host)| && k < |ds|
    requires var p := EntriesFor(ds, host)[i].path; p in Planned(ds).info && Origin(ds, k, p) && Level(ds, k)
    ensures
      var img, e := ImageFor(ds, host, src), EntriesFor(ds, host)[i];
      && e.kind == ds[k].kind
      && (e.kind == Link ==> BodyOf(img, e) == LinkTo(ds[k].operand))
      && (e.kind == File ==>
            && ds[k].operand in src && BodyOf(img, e) == FileAt(e.off, ds[k].size)
            && Clip(img, e.off, ds[k].size) == src[ds[k].operand])
  {
    hide Planned, Ordered, EntriesFor, StartFor, ImageFor, DataOf, Clip, Origin, Level, LinkText, Proper;
    EntriesAt(ds, host);
    var img, e := ImageFor(ds, host, src), EntriesFor(ds, host)[i];
    var item := Planned(ds).info[e.path];
    OriginData(ds, e.path, k);
    PointsReads(ds, src, e.path, k);
    ImageData(ds, host, src, item.off, item.size);
    assert Proper(ds[k]) && Has(ds[k], src);
    if e.kind == Link {
      LinkSize(ds[k]);
      TextOf(img, e.off, ds[k].operand);
    }
  }

  lemma LinkSize(d: Directive)
    requires Proper(d) && d.kind == Link
    ensures d.size == |d.operand| + 1
  {
  }

  /** The second of two links to one-letter targets is mounted as one to a null. */
  lemma MisreadLink(host: set<string>, i: nat)
    requires AllProper(TwoLinks()) && i < |EntriesFor(TwoLinks(), host)| && EntriesFor(TwoLinks(), host)[i].path == "/c"
    ensures BodyOf(ImageFor(TwoLinks(), host, map[]), EntriesFor(TwoLinks(), host)[i]) == LinkTo("\0")
  {
    hide Planned, Ordered, EntriesFor, StartFor, ImageFor, DataOf, Clip, Proper;
    EntriesAt(TwoLinks(), host);
    SecondLinkMisread();
    ImageData(TwoLinks(), host, map[], 0x1000, 1);
  }
}
