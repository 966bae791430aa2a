/** Initrd images as bytes: the formats of scripts/mkinitrd.py and how fs/initrd reads them. */
module InitrdImages {
  import opened Mkinitrds

  /** Bytes are characters below 256. */
  function Byte(n: nat): char { (n % 256) as char }

  function Le2(n: nat): (s: string)
    ensures |s| == 2
  { [Byte(n), Byte(n / 256)] }

  function Le4(n: nat): (s: string)
    ensures |s| == 4
  { Le2(n % 0x1_0000) + Le2(n / 0x1_0000) }

  function Read2(s: string, p: nat): nat
    requires p + 2 <= |s|
  { s[p] as nat + 256 * s[p + 1] as nat }

  function Read4(s: string, p: nat): nat
    requires p + 4 <= |s|
  { Read2(s, p) + 0x1_0000 * Read2(s, p + 2) }

  lemma Le2Read(n: nat)
    requires n < 0x1_0000
    ensures Read2(Le2(n), 0) == n
  {
  }

  lemma Le4Read(n: nat)
    requires n < 0x1_0000_0000
    ensures Read4(Le4(n), 0) == n
  {
    Le2Read(n % 0x1_0000);
    Le2Read(n / 0x1_0000);
    hide Le2;
    assert Read2(Le4(n), 0) == Read2(Le2(n % 0x1_0000), 0);
    assert Read2(Le4(n), 2) == Read2(Le2(n / 0x1_0000), 0);
  }

  /** A field read in a text is the field read alone. */
  lemma ReadAt(s: string, p: nat, a: string)
    requires p + |a| <= |s| && s[p..p + |a|] == a
    ensures |a| == 2 ==> Read2(s, p) == Read2(a, 0)
    ensures |a| == 4 ==> Read4(s, p) == Read4(a, 0)
  {
    assert forall i :: 0 <= i < |a| ==> s[p + i] == a[i];
  }

  function KindChar(k: Kind): char { match k case File => 'f' case Dir => 'd' case Link => 'l' }

  /** format_entry, which refuses what does not fit its fields. */
  predicate Fits(e: Entry) {
    e.off < 0xFFFF_FFFF && e.size < 0xFFFF_FFFF && 0 < |e.path| < 0xFFFF
  }

  function FormatEntry(e: Entry): (s: string)
    ensures |s| == 12 + |e.path| + 1
  {
    [KindChar(e.kind), '\0'] + Le2(|e.path|) + Le4(e.off) + Le4(e.size) + e.path + "\0"
  }

  function FormatEntries(es: seq<Entry>): string {
    if es == [] then [] else FormatEntry(es[0]) + FormatEntries(es[1..])
  }

  function FormatHeader(total: nat, dataOff: nat, count: nat): (s: string)
    ensures |s| == 32
  {
    "INITv1" + Le2(0) + Le4(total) + Le4(dataOff) + Le2(count) + seq(14, i => '\0')
  }

  /** What is at a place of the metadata. */
  ghost predicate EntryAt(s: string, p: nat, e: Entry) {
    && p + 12 + |e.path| + 1 <= |s|
    && s[p] == KindChar(e.kind) && Read2(s, p + 2) == |e.path| && Read4(s, p + 4) == e.off && Read4(s, p + 8) == e.size
    && s[p + 12..p + 12 + |e.path|] == e.path
  }

  lemma Within(s: string, p: nat, f: string, i: nat, j: nat)
    requires p + |f| <= |s| && s[p..p + |f|] == f && i <= j <= |f|
    ensures s[p + i..p + j] == f[i..j] && (i < |f| ==> s[p + i] == f[i])
  {
    forall k | 0 <= k < |f|
      ensures s[p + k] == f[k]
    {
      assert f[k] == s[p..p + |f|][k];
    }
  }

  lemma FieldsOf(e: Entry)
    ensures
      var f, n := FormatEntry(e), |e.path|;
      && f[0] == KindChar(e.kind) && f[2..4] == Le2(n) && f[4..8] == Le4(e.off) && f[8..12] == Le4(e.size)
      && f[12..12 + n] == e.path
  {
    hide Le2, Le4, KindChar;
  }

  lemma FormattedAt(e: Entry, s: string, p: nat)
    requires Fits(e) && p + |FormatEntry(e)| <= |s| && s[p..p + |FormatEntry(e)|] == FormatEntry(e)
    ensures EntryAt(s, p, e)
  {
    hide Le2, Le4, FormatEntry, Read2, Read4, KindChar;
    var f, n := FormatEntry(e), |e.path|;
    FieldsOf(e);
    Within(s, p, f, 0, 0);
    Within(s, p, f, 2, 4);
    Within(s, p, f, 4, 8);
    Within(s, p, f, 8, 12);
    Within(s, p, f, 12, 12 + n);
    Le2Read(n);
    Le4Read(e.off);
    Le4Read(e.size);
    ReadAt(s, p + 2, Le2(n));
    ReadAt(s, p + 4, Le4(e.off));
    ReadAt(s, p + 8, Le4(e.size));
  }

  // ----- the whole image -----

  /** The image of some entries, with the data that follows; none when a field does not fit. */
  function Image(es: seq<Entry>, start: nat, size: nat, data: string): string
    requires 32 + |FormatEntries(es)| <= start
  {
    FormatHeader(start + size, start, |es|) + FormatEntries(es)
    + seq(start - 32 - |FormatEntries(es)|, i => '\0') + data
  }

  lemma {:induction false} FormattedSplit(es: seq<Entry>, i: nat)
    requires i <= |es|
    ensures FormatEntries(es) == FormatEntries(es[..i]) + FormatEntries(es[i..])
  {
    hide FormatEntry;
    if i > 0 {
      FormattedSplit(es[1..], i - 1);
      assert es[..i][1..] == es[1..][..i - 1] && es[i..] == es[1..][i - 1..];
      var a, b, c := FormatEntry(es[0]), FormatEntries(es[..i][1..]), FormatEntries(es[i..]);
      assert a + (b + c) == a + b + c;
    } else {
      assert es[i..] == es;
    }
  }

  lemma FormattedSlice(es: seq<Entry>, i: nat)
    requires i < |es|
    ensures
      var a, p, f := FormatEntries(es), |FormatEntries(es[..i])|, FormatEntry(es[i]);
      p + |f| <= |a| && a[p..p + |f|] == f && |FormatEntries(es[..i + 1])| == p + |f|
  {
    hide FormatEntry;
    FormattedSplit(es, i);
    FormattedSplit(es[..i + 1], i);
    var rest := es[i..];
    assert rest[0] == es[i];
    assert es[..i + 1][..i] == es[..i] && es[..i + 1][i..] == [es[i]];
    var one := [es[i]];
    assert FormatEntries(one) == FormatEntry(one[0]) + FormatEntries(one[1..]);
  }

  lemma ImageMetadata(es: seq<Entry>, start: nat, size: nat, data: string)
    requires 32 + |FormatEntries(es)| <= start
    ensures var s, a := Image(es, start, size, data), FormatEntries(es);
      |s| >= start && s[32..start][..|a|] == a
  {
    hide FormatEntries, FormatHeader;
  }

  /** The `i`-th entry of an image lies after the ones before it. */
  lemma ImageEntry(es: seq<Entry>, start: nat, size: nat, data: string, i: nat)
    requires 32 + |FormatEntries(es)| <= start && i < |es| && Fits(es[i])
    ensures |Image(es, start, size, data)| >= start
    ensures EntryAt(Image(es, start, size, data)[32..start], |FormatEntries(es[..i])|, es[i])
    ensures |FormatEntries(es[..i + 1])| == |FormatEntries(es[..i])| + 12 + |es[i].path| + 1
  {
    hide FormatEntry, FormatEntries, EntryAt, Image;
    ImageMetadata(es, start, size, data);
    FormattedSlice(es, i);
    var s, a := Image(es, start, size, data)[32..start], FormatEntries(es);
    var p, f := |FormatEntries(es[..i])|, FormatEntry(es[i]);
    Within(s, 0, a, p, p + |f|);
    FormattedAt(es[i], s, p);
  }

  lemma HeaderFields(total: nat, start: nat, count: nat)
    ensures var h := FormatHeader(total, start, count);
      h[0..6] == "INITv1" && h[12..16] == Le4(start) && h[16..18] == Le2(count)
  {
    hide Le2, Le4;
  }

  lemma ImageHeader(es: seq<Entry>, start: nat, size: nat, data: string)
    requires 32 + |FormatEntries(es)| <= start && start + size < 0x1_0000_0000 && |es| < 0x1_0000
    ensures
      var s := Image(es, start, size, data);
      |s| >= start && s[0..6] == "INITv1" && Read4(s, 12) == start && Read2(s, 16) == |es|
  {
    hide FormatEntries, Le2, Le4, Read2, Read4, FormatHeader;
    var s, h := Image(es, start, size, data), FormatHeader(start + size, start, |es|);
    HeaderFields(start + size, start, |es|);
    assert s[0..0 + |h|] == h;
    Within(s, 0, h, 0, 6);
    Within(s, 0, h, 12, 16);
    Within(s, 0, h, 16, 18);
    Le4Read(start);
    Le2Read(|es|);
    ReadAt(s, 12, Le4(start));
    ReadAt(s, 16, Le2(|es|));
  }
}
