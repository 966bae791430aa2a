/** Numbers from text: strtol of kernel/string.c. */
module Strtols {
  const LONG_MAX: int := 0x7FFF_FFFF_FFFF_FFFF
  const LONG_MIN: int := -0x8000_0000_0000_0000

  // ----- what a text says -----

  /** The character at a place, null at the end and past it. */
  function At(s: string, p: nat): char { if p < |s| then s[p] else '\0' }

  /** The value of a digit or letter, too big for any base for other characters. */
  function Digit(c: char): nat {
    if '0' <= c <= '9' then c as nat - '0' as nat
    else if 'A' <= c <= 'Z' then c as nat - 'A' as nat + 10
    else if 'a' <= c <= 'z' then c as nat - 'a' as nat + 10
    else 99
  }

  /** The first place from `p` on that is not a space. */
  function Spaces(s: string, p: nat): (q: nat)
    requires p <= |s|
    ensures p <= q <= |s| && At(s, q) != ' ' && forall k :: p <= k < q ==> s[k] == ' '
    decreases |s| - p
  {
    if p < |s| && s[p] == ' ' then Spaces(s, p + 1) else p
  }

  predicate Negative(s: string) { At(s, Spaces(s, 0)) == '-' }

  function AfterSign(s: string): nat {
    var p := Spaces(s, 0);
    if At(s, p) == '-' || At(s, p) == '+' then p + 1 else p
  }

  predicate HexPrefix(s: string, p: nat, base: nat) {
    (base == 0 || base == 16) && At(s, p) == '0' && (At(s, p + 1) == 'x' || At(s, p + 1) == 'X')
  }

  function FirstDigit(s: string, base: nat): nat {
    var p := AfterSign(s);
    if HexPrefix(s, p, base) then p + 2 else p
  }

  function BaseOf(s: string, base: nat): nat {
    var p := AfterSign(s);
    if HexPrefix(s, p, base) then 16
    else if base == 0 then (if At(s, p) == '0' then 8 else 10)
    else base
  }

  /** The end of the longest run of digits of a base from `p` on. */
  function RunEnd(s: string, p: nat, base: nat): (q: nat)
    requires base <= 36
    ensures p <= q && (p <= |s| ==> q <= |s|) && Digit(At(s, q)) >= base
    ensures forall k :: p <= k < q ==> k < |s| && Digit(s[k]) < base
    decreases |s| - p
  {
    if p < |s| && Digit(s[p]) < base then RunEnd(s, p + 1, base) else p
  }

  /** The number that digits stand for. */
  function Val(ds: string, base: nat): nat {
    if ds == [] then 0 else Val(ds[..|ds| - 1], base) * base + Digit(ds[|ds| - 1])
  }

  /** The nearest `long` to a number of the given sign. */
  function Clamp(neg: bool, v: nat): int {
    if neg then (if v > LONG_MAX + 1 then LONG_MIN else 0 - v) else (if v > LONG_MAX then LONG_MAX else v)
  }

  /** What strtol returns: the value of the digits, clamped, and where they end, or the start of the
      text when there are none. */
  function Parsed(s: string, base: nat): (int, nat)
    requires base <= 36
  {
    var b, i := BaseOf(s, base), FirstDigit(s, base);
    var j := RunEnd(s, i, b);
    (Clamp(Negative(s), if i < j then Val(s[i..j], b) else 0), if i < j then j else 0)
  }

  // ----- strtol -----

  lemma ValMore(s: string, i: nat, j: nat, base: nat)
    requires i <= j < |s|
    ensures Val(s[i..j + 1], base) == Val(s[i..j], base) * base + Digit(s[j])
  {
    assert s[i..j + 1][..j - i] == s[i..j];
  }

  /** The test against the cut-off is the test against the limit, without the product. */
  lemma CutOff(limit: nat, base: nat, acc: nat, c: nat)
    requires base > 0 && c < base
    ensures acc * base + c > limit <==> acc > limit / base || (acc == limit / base && c > limit % base)
  {
    var q, r := limit / base, limit % base;
    assert limit == q * base + r;
    if acc > q {
      Times(q + 1, acc, base);
    } else if acc < q {
      Times(acc + 1, q, base);
    }
  }

  lemma Times(a: nat, b: nat, c: nat)
    requires a <= b
    ensures a * c <= b * c
  {
  }

  lemma StaysOver(limit: nat, v: nat, base: nat, c: nat)
    requires v > limit && base > 0
    ensures v * base + c > limit
  {
    Times(1, base, v);
  }

  /** The loop over the digits. */
  method Accumulate(s: string, i: nat, base: nat, limit: nat) returns (acc: nat, any: int, p: nat)
    requires 2 <= base <= 36 && i <= |s| + 1
    ensures p == RunEnd(s, i, base) && (any == 0 <==> p == i)
    ensures any == 0 ==> acc == 0
    ensures any > 0 ==> p <= |s| && acc == Val(s[i..p], base) <= limit
    ensures any < 0 ==> p <= |s| && Val(s[i..p], base) > limit
  {
    hide Val, RunEnd;
    var cutoff, cutlim := limit / base, limit % base;
    acc, any, p := 0, 0, i;
    EmptyVal(base);
    RunStep(s, i, base);
    while Digit(At(s, p)) < base
      invariant i <= p && RunEnd(s, i, base) == RunEnd(s, p, base) && (p <= |s| || p == i)
      invariant any == 0 <==> p == i
      invariant any == 0 ==> acc == 0
      invariant any > 0 ==> acc == Val(s[i..p], base) <= limit
      invariant any < 0 ==> Val(s[i..p], base) > limit
      decreases |s| - p
    {
      var c := Digit(At(s, p));
      RunStep(s, p, base);
      RunStep(s, p + 1, base);
      ValMore(s, i, p, base);
      assert s[i..i] == [];
      if any < 0 || acc > cutoff || (acc == cutoff && c > cutlim) {
        if any < 0 {
          StaysOver(limit, Val(s[i..p], base), base, c);
        } else {
          CutOff(limit, base, acc, c);
        }
        any := -1;
      } else {
        CutOff(limit, base, acc, c);
        any, acc := 1, acc * base + c;
      }
      p := p + 1;
    }
    RunStep(s, p, base);
  }

  lemma EmptyVal(base: nat)
    ensures Val([], base) == 0
  {
  }

  lemma RunStep(s: string, p: nat, base: nat)
    requires base <= 36
    ensures Digit(At(s, p)) >= base ==> RunEnd(s, p, base) == p
    ensures Digit(At(s, p)) < base ==> p < |s| && RunEnd(s, p, base) == RunEnd(s, p + 1, base)
  {
  }

  /** Spaces, a sign and the prefix of base 16. */
  method ReadHead(s: string, base: nat) returns (neg: bool, i: nat, b: nat)
    ensures neg == Negative(s) && i == FirstDigit(s, base) && b == BaseOf(s, base) && i <= |s|
  {
    hide Spaces;
    var p: nat := 0;
    var c := At(s, p);
    p := p + 1;
    SpaceStep(s, 0);
    while c == ' '
      invariant 1 <= p <= |s| + 1 && c == At(s, p - 1) && Spaces(s, 0) == Spaces(s, p - 1)
      decreases |s| + 1 - p
    {
      SpaceStep(s, p - 1);
      c, p := At(s, p), p + 1;
    }
    SpaceStep(s, p - 1);
    neg := false;
    if c == '-' {
      neg := true;
      c, p := At(s, p), p + 1;
    } else if c == '+' {
      c, p := At(s, p), p + 1;
    }
    b := base;
    if (b == 0 || b == 16) && c == '0' && (At(s, p) == 'x' || At(s, p) == 'X') {
      c, p := At(s, p + 1), p + 2;
      b := 16;
    }
    if b == 0 {
      b := if c == '0' then 8 else 10;
    }
    i := p - 1;
  }

  method Strtol(s: string, base: nat) returns (value: int, end: nat)
    requires base == 0 || 2 <= base <= 36
    ensures (value, end) == Parsed(s, base)
    ensures LONG_MIN <= value <= LONG_MAX && end <= |s|
  {
    hide RunEnd, Val, FirstDigit, BaseOf, Negative;
    BaseRange(s, base);
    var neg, i, b := ReadHead(s, base);
    var limit: nat := if neg then LONG_MAX + 1 else LONG_MAX;
    var acc, any, q := Accumulate(s, i, b, limit);
    if any < 0 {
      value := if neg then LONG_MIN else LONG_MAX;
    } else {
      value := acc;
      if neg {
        value := -value;
      }
    }
    end := if any != 0 then q else 0;
  }

  lemma BaseRange(s: string, base: nat)
    requires base == 0 || 2 <= base <= 36
    ensures 2 <= BaseOf(s, base) <= 36
  {
  }

  lemma SpaceStep(s: string, p: nat)
    requires p <= |s|
    ensures At(s, p) == ' ' ==> p < |s| && Spaces(s, p) == Spaces(s, p + 1)
    ensures At(s, p) != ' ' ==> Spaces(s, p) == p
  {
  }
}
