/** Paths as text: what scripts/mkinitrd.py and kernel/vfs/path.c make of them. */
module PathText {
  /** A path with every trailing slash removed. */
  function Strip(s: string): (t: string)
    ensures t <= s && (t == [] || t[|t| - 1] != '/') && forall i :: |t| <= i < |s| ==> s[i] == '/'
  {
    if s == [] || s[|s| - 1] != '/' then s else Strip(s[..|s| - 1])
  }

  /** A path up to its last slash, which it keeps. */
  function DropName(s: string): (t: string)
    ensures t <= s && (t == [] || t[|t| - 1] == '/') && forall i :: |t| <= i < |s| ==> s[i] != '/'
  {
    if s == [] || s[|s| - 1] == '/' then s else DropName(s[..|s| - 1])
  }

  /** path_dirname and path_basename of the kernel. */
  function Dirname(s: string): string {
    var t := Strip(s);
    if s == [] then "."
    else if t == [] then "/"
    else if DropName(t) == [] then "."
    else if Strip(DropName(t)) == [] then "/"
    else Strip(DropName(t))
  }

  function Basename(s: string): string {
    var t := Strip(s);
    if s == [] then "." else if t == [] then "/" else t[|DropName(t)|..]
  }

  /** The head of Python's posixpath.split. */
  function SplitHead(s: string): string {
    var head := DropName(s);
    if Strip(head) == [] then head else Strip(head)
  }

  // ----- image paths -----

  /** An absolute path of ASCII text without empty parts; a directory when it ends in a slash. */
  ghost predicate Normal(p: string) {
    && |p| >= 2 && p[0] == '/' && p[1] != '/'
    && (forall i :: 0 <= i < |p| - 1 && p[i] == '/' ==> p[i + 1] != '/')
    && forall i :: 0 <= i < |p| ==> 0 < p[i] as int < 128
  }

  predicate IsDir(p: string) { p != [] && p[|p| - 1] == '/' }

  /** The path of the directory that holds `p`, with its slash. */
  function Holder(p: string): string { DropName(Strip(p)) }

  lemma StripNormal(p: string)
    requires Normal(p)
    ensures Strip(p) == if IsDir(p) then p[..|p| - 1] else p
    ensures Strip(p) != [] && Strip(p)[0] == '/' && |Strip(p)| >= 2
  {
    if IsDir(p) {
      assert p[|p| - 2] != '/';
      assert Strip(p) == Strip(p[..|p| - 1]);
    }
  }

  lemma HolderNormal(p: string)
    requires Normal(p)
    ensures Holder(p) == "/" || (Normal(Holder(p)) && IsDir(Holder(p)))
    ensures Holder(p) <= Strip(p) && 0 < |Holder(p)| < |Strip(p)|
    ensures forall i :: |Holder(p)| <= i < |Strip(p)| ==> Strip(p)[i] != '/'
  {
    StripNormal(p);
    var t, d := Strip(p), Holder(p);
    assert t[0] == '/' && d != [];
    if |d| > 1 {
      assert d[1] == p[1];
      forall i | 0 <= i < |d|
        ensures d[i] == p[i]
      {
        assert d[i] == t[i];
      }
    } else {
      assert d == "/";
    }
  }

  /** Both programs name the directory that holds a path alike. */
  lemma DirnameNormal(p: string)
    requires Normal(p)
    ensures Dirname(p) == Dirname(Strip(p)) == SplitHead(Strip(p)) == if Holder(p) == "/" then "/" else Strip(Holder(p))
    ensures Holder(p) != "/" ==> Strip(Holder(p)) + "/" == Holder(p) && Normal(Strip(Holder(p)))
  {
    StripNormal(p);
    HolderNormal(p);
    var t, d := Strip(p), Holder(p);
    assert Strip(t) == t;
    if d == "/" {
      assert Strip(d) == [];
    } else {
      StripNormal(d);
    }
  }

  // ----- the order of paths -----

  function Depth(p: string): nat { if p == [] then 0 else Depth(p[..|p| - 1]) + if p[|p| - 1] == '/' then 1 else 0 }

  function LowerChar(c: char): char { if 'A' <= c <= 'Z' then (c as int + 32) as char else c }

  function Lower(p: string): (q: string)
    ensures |q| == |p| && forall i :: 0 <= i < |p| ==> q[i] == LowerChar(p[i])
  { seq(|p|, i requires 0 <= i < |p| => LowerChar(p[i])) }

  predicate LexLe(a: string, b: string) {
    a == [] || (b != [] && (a[0] < b[0] || (a[0] == b[0] && LexLe(a[1..], b[1..]))))
  }

  lemma {:induction false} LexTotal(a: string, b: string)
    ensures LexLe(a, b) || LexLe(b, a)
  {
    if a != [] && b != [] && a[0] == b[0] {
      LexTotal(a[1..], b[1..]);
    }
  }

  lemma {:induction false} LexTrans(a: string, b: string, c: string)
    requires LexLe(a, b) && LexLe(b, c)
    ensures LexLe(a, c)
  {
    if a != [] && a[0] == b[0] && b[0] == c[0] {
      LexTrans(a[1..], b[1..], c[1..]);
    }
  }

  /** A text comes strictly after its proper prefixes. */
  lemma {:induction false} LexPrefix(a: string, b: string)
    requires a < b
    ensures LexLe(a, b) && !LexLe(b, a)
  {
    if a != [] {
      LexPrefix(a[1..], b[1..]);
    }
  }

  lemma {:induction false} DepthSame(p: string, n: nat)
    requires n <= |p| && forall i :: n <= i < |p| ==> p[i] != '/'
    ensures Depth(p) == Depth(p[..n])
    decreases |p|
  {
    if n < |p| {
      DepthSame(p[..|p| - 1], n);
      assert p[..|p| - 1][..n] == p[..n];
    } else {
      assert p[..n] == p;
    }
  }

  lemma HolderDepth(p: string)
    requires Normal(p)
    ensures Depth(p) == Depth(Holder(p)) + if IsDir(p) then 1 else 0
  {
    StripNormal(p);
    HolderNormal(p);
    DepthSame(Strip(p), |Holder(p)|);
    assert Strip(p)[..|Holder(p)|] == Holder(p);
  }

  /** The order of sort_order_paths: depth, then files of the build host, then text without case. */
  predicate PathLe(host: set<string>, a: string, b: string) {
    || Depth(a) < Depth(b)
    || (Depth(a) == Depth(b) && a in host && b !in host)
    || (Depth(a) == Depth(b) && (a in host <==> b in host) && LexLe(Lower(a), Lower(b)))
  }

  lemma PathTotal(host: set<string>, a: string, b: string)
    ensures PathLe(host, a, b) || PathLe(host, b, a)
  {
    LexTotal(Lower(a), Lower(b));
  }

  lemma PathTrans(host: set<string>, a: string, b: string, c: string)
    requires PathLe(host, a, b) && PathLe(host, b, c)
    ensures PathLe(host, a, c)
  {
    if LexLe(Lower(a), Lower(b)) && LexLe(Lower(b), Lower(c)) {
      LexTrans(Lower(a), Lower(b), Lower(c));
    }
  }

  /** A directory comes strictly before what it holds, except a file that the build host also has at
      that path, which comes strictly before the directory. */
  lemma HolderOrder(host: set<string>, p: string)
    requires Normal(p) && Holder(p) != "/" && forall h :: h in host ==> !IsDir(h)
    ensures p !in host ==> PathLe(host, Holder(p), p) && !PathLe(host, p, Holder(p))
    ensures p in host ==> PathLe(host, p, Holder(p)) && !PathLe(host, Holder(p), p)
  {
    StripNormal(p);
    HolderNormal(p);
    HolderDepth(p);
    var d := Holder(p);
    if !IsDir(p) {
      assert d < p;
      assert Lower(d) < Lower(p);
      LexPrefix(Lower(d), Lower(p));
    }
  }
}
