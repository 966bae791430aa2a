/** The allocator of runs of bits, lib/bitmap.c. */
module Bitmaps {
  import opened Base

  const BITS: nat := 64

  /** A word as its 64 bits, lowest first. */
  type Word = w: seq<bool> | |w| == 64 witness seq(64, i => false)

  // ----- bits of a word -----

  /** The first bit that is set, or the number of bits when there is none. */
  function Lowest(q: seq<bool>): (r: nat)
    ensures r <= |q| && (r < |q| ==> q[r]) && forall j :: 0 <= j < r ==> !q[j]
  {
    if q == [] || q[0] then 0 else 1 + Lowest(q[1..])
  }

  function Inverted(q: seq<bool>): (r: seq<bool>)
    ensures |r| == |q| && forall j :: 0 <= j < |q| ==> r[j] == !q[j]
  { seq(|q|, i requires 0 <= i < |q| => !q[i]) }

  function Shifted(q: Word, k: nat): (r: Word)
    requires k <= 64
    ensures forall j :: 0 <= j < 64 ==> r[j] == (j + k < 64 && q[j + k])
  { q[k..] + seq(k, i => false) }

  function Count(q: seq<bool>): nat { if q == [] then 0 else (if q[0] then 1 else 0) + Count(q[1..]) }

  function SetRun(w: Word, p: nat, n: nat): (r: Word)
    requires p + n <= 64
    ensures forall j :: 0 <= j < 64 ==> r[j] == (w[j] || p <= j < p + n)
  { seq(64, i requires 0 <= i < 64 => w[i] || p <= i < p + n) }

  /** The `n` bits from `s` on are all set in `q`. */
  predicate Run(q: seq<bool>, s: nat, n: nat) {
    s + n <= |q| && forall j :: s <= j < s + n ==> q[j]
  }

  /** The `n` bits from `s` on are all clear. */
  ghost predicate Clear(w: seq<bool>, s: nat, n: nat) {
    s + n <= |w| && forall j :: s <= j < s + n ==> !w[j]
  }

  lemma ClearRun(w: seq<bool>, s: nat, n: nat)
    ensures Clear(w, s, n) <==> Run(Inverted(w), s, n)
  {
  }

  /** A run needs as many set bits as it is long: the count rules out only words without one. */
  lemma {:induction false} RunCount(q: seq<bool>, s: nat, n: nat)
    requires Run(q, s, n)
    ensures Count(q) >= n
    decreases |q|
  {
    if n > 0 {
      if s == 0 {
        assert Run(q[1..], 0, n - 1);
        RunCount(q[1..], 0, n - 1);
      } else {
        assert forall j :: s - 1 <= j < s - 1 + n ==> q[1..][j] == q[j + 1];
        assert Run(q[1..], s - 1, n);
        RunCount(q[1..], s - 1, n);
      }
    }
  }

  /** `qw` is `q` shifted right by `p`. */
  ghost predicate Tail(q: Word, p: nat, qw: Word) {
    forall j :: 0 <= j < 64 ==> qw[j] == (j + p < 64 && q[j + p])
  }

  lemma TailShifted(q: Word, p: nat, qw: Word, k: nat)
    requires Tail(q, p, qw) && k <= 64
    ensures Tail(q, p + k, Shifted(qw, k))
  {
  }

  /** No run starts before `p`. */
  ghost predicate NoneBefore(q: Word, n: nat, p: nat) { forall s :: 0 <= s < p ==> !Run(q, s, n) }

  lemma SkipClear(q: Word, n: nat, p: nat, qw: Word)
    requires n >= 1 && Tail(q, p, qw) && NoneBefore(q, n, p)
    ensures NoneBefore(q, n, p + Lowest(qw)) && (Lowest(qw) < 64 ==> p + Lowest(qw) < 64)
  {
    var k := Lowest(qw);
    forall s | p <= s < p + k
      ensures !Run(q, s, n)
    {
      assert s < 64 ==> q[s] == qw[s - p];
    }
  }

  lemma SetBit(q: Word, p: nat, qw: Word, k: nat, s: nat)
    requires Tail(q, p, qw) && k == Lowest(Inverted(qw)) && p <= s < p + k
    ensures s < 64 && q[s]
  {
    var j := s - p;
    assert !Inverted(qw)[j];
    assert qw[j] == (j + p < 64 && q[j + p]);
  }

  lemma AtSet(q: Word, n: nat, p: nat, qw: Word, k: nat)
    requires n >= 1 && Tail(q, p, qw) && k == Lowest(Inverted(qw)) && p < 64 && (p > 0 || false in q)
    ensures k >= n ==> Run(q, p, n)
    ensures k < n && NoneBefore(q, n, p) ==> NoneBefore(q, n, p + k)
    ensures qw[0] ==> k > 0
  {
    forall s: nat | p <= s < p + k
      ensures s < 64 && q[s]
    {
      SetBit(q, p, qw, k, s);
    }
    if k >= n {
      SetBit(q, p, qw, k, p + n - 1);
    } else {
      assert k < 64 by {
        if p == 0 {
          var j :| 0 <= j < 64 && !q[j];
          assert !qw[j];
        } else {
          assert !qw[63];
        }
      }
      assert Inverted(qw)[k];
      assert p + k < 64 ==> !q[p + k];
    }
  }

  /** The search of one word for a run of free bits, `p` where it starts or -1. */
  method FindRun(q: Word, n: nat) returns (p: int)
    requires 1 <= n <= 64 && false in q
    ensures p == -1 <==> forall s: nat :: !Run(q, s, n)
    ensures p != -1 ==> p >= 0 && Run(q, p, n) && NoneBefore(q, n, p)
  {
    hide Lowest, Shifted, Inverted, Run, Tail, NoneBefore;
    var qw := q;
    p := 0;
    Begin(q, n);
    while Lowest(qw) < 64
      invariant 0 <= p && Tail(q, p, qw) && NoneBefore(q, n, p)
      decreases 64 - p
    {
      var k := Lowest(qw);
      SkipClear(q, n, p, qw);
      TailShifted(q, p, qw, k);
      qw := Shifted(qw, k);
      p := p + k;
      k := Lowest(Inverted(qw));
      AtSet(q, n, p, qw, k);
      if k >= n {
        return;
      }
      TailShifted(q, p, qw, k);
      qw := Shifted(qw, k);
      p := p + k;
    }
    SkipClear(q, n, p, qw);
    NoneAtAll(q, n, p + 64);
    p := -1;
  }

  lemma Begin(q: Word, n: nat)
    ensures Tail(q, 0, q) && NoneBefore(q, n, 0)
  {
  }

  lemma NoneAtAll(q: Word, n: nat, p: nat)
    requires p >= 64 && n >= 1 && NoneBefore(q, n, p)
    ensures forall s: nat :: !Run(q, s, n)
  {
    forall s: nat
      ensures !Run(q, s, n)
    {
      assert s >= 64 ==> !Run(q, s, n);
    }
  }

  // ----- the bitmap -----

  class Bitmap {
    var words: array<Word>
    var used: int
    var free: nat

    constructor (n: nat)
      ensures fresh(words) && words.Length == (n + 63) / 64 && free == n && used == 0
      ensures forall i :: 0 <= i < words.Length ==> words[i] == seq(64, k => false)
    {
      words := new Word[(n + 63) / 64](i => seq(64, k => false));
      used, free := 0, n;
    }

    /** bitmap_get_set_nfree for up to 64 bits: the lowest run of `n` clear bits within a word is
        set, and nothing else is; there is none when -1 comes back, or too few bits were counted free. */
    method GetSetRun(n: nat) returns (index: int)
      requires 1 <= n <= 64
      modifies this, words
      ensures words == old(words)
      ensures index == -1 <==>
        n > old(free) || forall i: nat, s: nat :: i < words.Length ==> !Clear(old(words[i]), s, n)
      ensures index == -1 ==> free == old(free) && used == old(used) && words[..] == old(words[..])
      ensures index != -1 ==>
        var i, p := index / 64, index % 64;
        && 0 <= i < words.Length && Clear(old(words[i]), p, n) && free == old(free) - n
        && (forall j: nat, s: nat :: j < i ==> !Clear(old(words[j]), s, n))
        && (forall s: nat :: s < p ==> !Clear(old(words[i]), s, n))
        && words[i] == SetRun(old(words[i]), p, n)
        && used == old(used) + (if Clear(old(words[i]), 0, 64) then 0 else n)
        && forall j :: 0 <= j < words.Length && j != i ==> words[j] == old(words[j])
      ensures index != -1 ==> 0 <= index && index + n <= 64 * words.Length
    {
      hide Inverted, Clear, Run, Count, SetRun, NoneBefore;
      if n > free {
        return -1;
      }
      var i := 0;
      while i < words.Length
        invariant 0 <= i <= words.Length && words == old(words) && words[..] == old(words[..])
        invariant free == old(free) && used == old(used)
        invariant forall j: nat, s: nat :: j < i ==> !Clear(words[j], s, n)
      {
        var qw := Inverted(words[i]);
        var p := -1;
        if Count(qw) < n {
          TooFew(words[i], n);
        } else if forall j :: 0 <= j < 64 ==> qw[j] {
          AllFree(words[i], n);
          free := free - n;
          words[i] := SetRun(words[i], 0, n);
          return i * 64;
        } else {
          p := FindRun(qw, n);
          FoundClear(words[i], n, p);
          NotAllFree(words[i]);
          if p != -1 {
            used := used + n;
            free := free - n;
            words[i] := SetRun(words[i], p, n);
            return i * 64 + p;
          }
        }
        i := i + 1;
      }
      return -1;
    }

    /** bitmap_get_set_free: the lowest clear bit is set; the counters are left as they were. */
    method GetSetFree() returns (index: int)
      modifies words
      ensures index == -1 <==>
        free == 0 || forall i: nat, s: nat :: i < words.Length ==> !Clear(old(words[i]), s, 1)
      ensures index == -1 ==> words[..] == old(words[..])
      ensures index != -1 ==>
        var i, p := index / 64, index % 64;
        && 0 <= i < words.Length && Clear(old(words[i]), p, 1)
        && (forall j: nat, s: nat :: j < i ==> !Clear(old(words[j]), s, 1))
        && (forall s: nat :: s < p ==> !Clear(old(words[i]), s, 1))
        && words[i] == SetRun(old(words[i]), p, 1)
        && forall j :: 0 <= j < words.Length && j != i ==> words[j] == old(words[j])
      ensures index != -1 ==> 0 <= index < 64 * words.Length
    {
      hide Inverted, Clear, Lowest, SetRun;
      if free == 0 {
        return -1;
      }
      var i := 0;
      while i < words.Length
        invariant 0 <= i <= words.Length && words[..] == old(words[..])
        invariant forall j: nat, s: nat :: j < i ==> !Clear(words[j], s, 1)
      {
        var p := Lowest(Inverted(words[i]));
        if p == 64 {
          Full(words[i]);
        } else {
          NotFull(words[i]);
          words[i] := SetRun(words[i], p, 1);
          return i * 64 + p;
        }
        i := i + 1;
      }
      return -1;
    }
  }

  lemma Full(w: Word)
    requires Lowest(Inverted(w)) == 64
    ensures forall s: nat :: !Clear(w, s, 1)
  {
    forall s: nat
      ensures !Clear(w, s, 1)
    {
      assert s < 64 ==> !Inverted(w)[s];
    }
  }

  lemma NotFull(w: Word)
    requires Lowest(Inverted(w)) < 64
    ensures Clear(w, Lowest(Inverted(w)), 1) && forall s: nat :: s < Lowest(Inverted(w)) ==> !Clear(w, s, 1)
  {
    var p := Lowest(Inverted(w));
    assert Inverted(w)[p];
    forall s: nat | s < p
      ensures !Clear(w, s, 1)
    {
      assert !Inverted(w)[s];
    }
  }

  lemma TooFew(w: Word, n: nat)
    requires Count(Inverted(w)) < n
    ensures forall s: nat :: !Clear(w, s, n)
  {
    forall s: nat
      ensures !Clear(w, s, n)
    {
      ClearRun(w, s, n);
      if Run(Inverted(w), s, n) {
        RunCount(Inverted(w), s, n);
      }
    }
  }

  lemma AllFree(w: Word, n: nat)
    requires 1 <= n <= 64 && forall j :: 0 <= j < 64 ==> Inverted(w)[j]
    ensures Clear(w, 0, n) && Clear(w, 0, 64)
  {
    forall j | 0 <= j < 64
      ensures !w[j]
    {
      assert Inverted(w)[j];
    }
  }

  lemma NotAllFree(w: Word)
    requires !forall j :: 0 <= j < 64 ==> Inverted(w)[j]
    ensures !Clear(w, 0, 64)
  {
    var j :| 0 <= j < 64 && !Inverted(w)[j];
    assert w[j];
  }

  lemma FoundClear(w: Word, n: nat, p: int)
    requires p == -1 <==> forall s: nat :: !Run(Inverted(w), s, n)
    requires p != -1 ==> p >= 0 && Run(Inverted(w), p, n) && NoneBefore(Inverted(w), n, p)
    ensures p == -1 ==> forall s: nat :: !Clear(w, s, n)
    ensures p != -1 ==> Clear(w, p, n) && forall s: nat :: s < p ==> !Clear(w, s, n)
  {
    forall s: nat
      ensures Clear(w, s, n) <==> Run(Inverted(w), s, n)
    {
      ClearRun(w, s, n);
    }
  }

  // ----- bits past the end -----

  /** A map of whole words has just as many bits as were asked for, and so hands out no others. */
  method WholeWords(n: nat) returns (b: Bitmap)
    requires n % 64 == 0
    ensures fresh(b) && 64 * b.words.Length == n
  {
    b := new Bitmap(n);
    ModUnique(n + 63, 64, n / 64, 63);
  }

  /** Just the first `k` bits are set. */
  ghost predicate Filled(words: seq<Word>, k: nat) {
    forall j: nat, p: nat :: j < |words| && p < 64 ==> (words[j][p] <==> 64 * j + p < k)
  }

  /** Every other map hands out the bit after its last, once all its own are taken: taking a bit does
      not count it. */
  method PastEnd(n: nat) returns (index: int)
    requires n % 64 != 0
    ensures index == n
  {
    var b := new Bitmap(n);
    var k := 0;
    Taken(n, n);
    while k < n
      invariant 0 <= k <= n && b.free == n && b.words.Length == n / 64 + 1 && Filled(b.words[..], k)
      invariant fresh(b) && fresh(b.words)
    {
      Taken(n, k);
      index := NextBit(b, k);
      k := k + 1;
    }
    index := NextBit(b, n);
  }

  lemma Taken(n: nat, k: nat)
    requires n % 64 != 0 && k <= n
    ensures n > 0 && (n + 63) / 64 == n / 64 + 1 && k < 64 * (n / 64 + 1)
  {
    ModUnique(n + 63, 64, n / 64 + 1, n % 64 - 1);
  }

  /** The lowest clear bit, when just those before it are set. */
  method NextBit(b: Bitmap, k: nat) returns (index: int)
    requires Filled(b.words[..], k) && k < 64 * b.words.Length && b.free > 0
    modifies b.words
    ensures index == k && Filled(b.words[..], k + 1)
  {
    hide Clear, SetRun, Filled;
    ghost var was, i, p := b.words[..], k / 64, k % 64;
    FirstClear(was, k);
    assert b.words[i] == was[i] && Clear(b.words[i], p, 1);
    index := b.GetSetFree();
    assert index != -1 && index / 64 == i && index % 64 == p;
    FilledMore(was, b.words[..], k);
  }

  lemma FirstClear(words: seq<Word>, k: nat)
    requires Filled(words, k) && k < 64 * |words|
    ensures k / 64 < |words| && Clear(words[k / 64], k % 64, 1)
    ensures forall j: nat, s: nat :: j < k / 64 ==> !Clear(words[j], s, 1)
    ensures forall s: nat :: s < k % 64 ==> !Clear(words[k / 64], s, 1)
  {
    forall j: nat, s: nat | j < k / 64 || (j == k / 64 && s < k % 64)
      ensures !Clear(words[j], s, 1)
    {
      assert s < 64 ==> words[j][s];
    }
  }

  lemma FilledMore(words: seq<Word>, words': seq<Word>, k: nat)
    requires Filled(words, k) && k < 64 * |words| == 64 * |words'|
    requires words'[k / 64] == SetRun(words[k / 64], k % 64, 1)
    requires forall j :: 0 <= j < |words| && j != k / 64 ==> words'[j] == words[j]
    ensures Filled(words', k + 1)
  {
    hide SetRun;
    forall j: nat, p: nat | j < |words'| && p < 64
      ensures words'[j][p] <==> 64 * j + p < k + 1
    {
      assert words[j][p] <==> 64 * j + p < k;
    }
  }

  /** So do runs: of 100 bits, after a run of 60, a run of 40 is bits 64 to 103. */
  method RunPastEnd() returns (index: int)
    ensures index == 64
  {
    hide Run, Count;
    var b := new Bitmap(100);
    ghost var none: Word := seq(64, k => false);
    assert Clear(none, 0, 60) && Clear(none, 0, 40);
    assert b.words[0] == none && b.words[1] == none;
    var first := b.GetSetRun(60);
    assert first == 0;
    ghost var taken := SetRun(none, 0, 60);
    forall s: nat
      ensures !Clear(taken, s, 40)
    {
      assert s < 25 ==> taken[s];
    }
    index := b.GetSetRun(40);
  }
}
