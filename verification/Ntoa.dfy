/** Text from numbers: _ntoa of lib/format.c, and back with strtol. */
module Ntoas {
  import opened Strtols

  datatype Options = Options(altForm: bool, padZero: bool, padRight: bool, addSpace: bool, addPlus: bool,
                             isSigned: bool, isUpper: bool, width: nat, precision: nat)

  predicate Radix(base: nat) { base == 2 || base == 8 || base == 10 || base == 16 }

  function DigitChar(d: nat, upper: bool): (c: char)
    requires d < 16
    ensures Digit(c) == d
  {
    if d < 10 then ('0' as int + d) as char
    else if upper then ('A' as int + (d - 10)) as char
    else ('a' as int + (d - 10)) as char
  }

  // ----- the digits of a number -----

  function Last(v: nat, base: nat): (d: nat)
    requires Radix(base)
    ensures d < base
  { v % base }

  function Front(v: nat, base: nat): (q: nat)
    requires Radix(base)
    ensures v > 0 ==> q < v
    ensures v == q * base + Last(v, base)
  { v / base }

  /** Lowest first, as the loop of ntoa_unsigned makes them. */
  function LowFirst(v: nat, base: nat, upper: bool): string
    requires Radix(base)
  {
    if v == 0 then [] else [DigitChar(Last(v, base), upper)] + LowFirst(Front(v, base), base, upper)
  }

  function HighFirst(v: nat, base: nat, upper: bool): string
    requires Radix(base)
  {
    if v == 0 then [] else HighFirst(Front(v, base), base, upper) + [DigitChar(Last(v, base), upper)]
  }

  function Numeral(v: nat, base: nat, upper: bool): string
    requires Radix(base)
  {
    if v == 0 then "0" else HighFirst(v, base, upper)
  }

  function Reversed(s: string): (r: string)
    ensures |r| == |s| && forall i :: 0 <= i < |s| ==> r[i] == s[|s| - 1 - i]
  { seq(|s|, i requires 0 <= i < |s| => s[|s| - 1 - i]) }

  lemma {:induction false} ReversedDigits(v: nat, base: nat, upper: bool)
    requires Radix(base)
    ensures Reversed(LowFirst(v, base, upper)) == HighFirst(v, base, upper)
  {
    hide DigitChar, Front, Last;
    if v > 0 {
      ReversedDigits(Front(v, base), base, upper);
      var low, rest := LowFirst(v, base, upper), LowFirst(Front(v, base), base, upper);
      assert Reversed([low[0]] + rest) == Reversed(rest) + [low[0]];
    }
  }

  /** The numeral stands for its number, in digits of the base only. */
  lemma {:induction false} NumeralVal(v: nat, base: nat, upper: bool)
    requires Radix(base)
    ensures Val(HighFirst(v, base, upper), base) == v
    ensures forall i :: 0 <= i < |HighFirst(v, base, upper)| ==> Digit(HighFirst(v, base, upper)[i]) < base
    ensures v > 0 ==> HighFirst(v, base, upper) != []
  {
    hide Digit, DigitChar, Front, Last;
    if v > 0 {
      NumeralVal(Front(v, base), base, upper);
      var front, d := HighFirst(Front(v, base), base, upper), DigitChar(Last(v, base), upper);
      assert (front + [d])[..|front|] == front;
      assert Val(front + [d], base) == Val(front, base) * base + Digit(d);
    }
  }

  function Pow(b: nat, k: nat): nat { if k == 0 then 1 else b * Pow(b, k - 1) }

  /** A number below a power of eight has few digits in the bases from eight on. */
  lemma {:induction false} ShortDigits(v: nat, base: nat, upper: bool, k: nat)
    requires Radix(base) && base > 2 && v < Pow(8, k)
    ensures |LowFirst(v, base, upper)| <= k
  {
    if v > 0 {
      assert Front(v, base) < Pow(8, k - 1);
      ShortDigits(Front(v, base), base, upper, k - 1);
    }
  }

  lemma {:induction false} BinaryDigits(v: nat, upper: bool, k: nat)
    ensures |LowFirst(v, 2, upper)| <= k <==> v < Pow(2, k)
  {
    if v > 0 && k > 0 {
      assert v < Pow(2, k) <==> Front(v, 2) < Pow(2, k - 1);
      BinaryDigits(Front(v, 2), upper, k - 1);
    }
    PowPositive(2, k);
  }

  lemma {:induction false} PowPositive(b: nat, k: nat)
    requires b > 0
    ensures Pow(b, k) > 0
  {
    if k > 0 {
      PowPositive(b, k - 1);
      assert b * Pow(b, k - 1) >= Pow(b, k - 1);
    }
  }

  /** Which numbers have more digits than the buffer has room for, with a null after them. */
  lemma ManyDigits(v: nat, base: nat, upper: bool)
    requires Radix(base) && v < 0x1_0000_0000_0000_0000
    ensures |LowFirst(v, base, upper)| >= NTOA_BUFFER_SIZE <==> base == 2 && v >= 0x8000_0000
  {
    if base == 2 {
      assert Pow(2, 4) == 0x10;
      assert Pow(2, 8) == 0x100;
      assert Pow(2, 12) == 0x1000;
      assert Pow(2, 16) == 0x1_0000;
      assert Pow(2, 20) == 0x10_0000;
      assert Pow(2, 24) == 0x100_0000;
      assert Pow(2, 28) == 0x1000_0000;
      assert Pow(2, 31) == 0x8000_0000;
      BinaryDigits(v, upper, 31);
    } else {
      assert Pow(8, 4) == 0x1000;
      assert Pow(8, 8) == 0x100_0000;
      assert Pow(8, 12) == 0x10_0000_0000;
      assert Pow(8, 16) == 0x1_0000_0000_0000;
      assert Pow(8, 20) == 0x1000_0000_0000_0000;
      assert Pow(8, 22) == 0x4_0000_0000_0000_0000;
      ShortDigits(v, base, upper, 22);
    }
  }

  // ----- the parts of the text -----

  function Fill(c: char, n: nat): (s: string)
    ensures |s| == n && forall i :: 0 <= i < n ==> s[i] == c
  { seq(n, i => c) }

  /** The bits of a 64-bit word as a signed number. */
  function Signed(value: nat): int {
    if value < 0x8000_0000_0000_0000 then value else value - 0x1_0000_0000_0000_0000
  }

  function Magnitude(value: nat, opts: Options): nat
    requires value < 0x1_0000_0000_0000_0000
  {
    if opts.isSigned && Signed(value) < 0 then -Signed(value) else value
  }

  function Prefix(value: nat, base: nat, opts: Options): string {
    if opts.isSigned then
      if Signed(value) < 0 then "-" else if opts.addPlus then "+" else if opts.addSpace then " " else ""
    else if opts.altForm && base == 2 then "0b"
    else if opts.altForm && base == 16 then "0x"
    else ""
  }

  /** The width less the text, as a 32-bit number; the loops that pad see a negative `int` when it
      wraps, and then do nothing. */
  function Padding(width: nat, len: nat): nat {
    var t := (width - len) % 0x1_0000_0000;
    if t < 0x8000_0000 then t else 0
  }

  predicate SpacesFirst(opts: Options) { !opts.padRight && (opts.precision != 0 || !opts.padZero) }
  predicate ZerosFirst(opts: Options) { opts.padZero && !(opts.precision != 0 || opts.padRight) }

  function Text(value: nat, base: nat, opts: Options): string
    requires Radix(base) && value < 0x1_0000_0000_0000_0000
  {
    var number, prefix := Numeral(Magnitude(value, opts), base, opts.isUpper), Prefix(value, base, opts);
    var pad := Padding(opts.width, |number| + |prefix|);
    Fill(' ', if SpacesFirst(opts) then pad else 0) + prefix
    + Fill('0', if ZerosFirst(opts) then pad else 0) + number
    + Fill(' ', if opts.padRight then pad else 0)
  }

  // ----- _ntoa -----

  const NTOA_BUFFER_SIZE: nat := 32

  /** ntoa_signed and ntoa_unsigned, which do the same to a number that is not negative. */
  method WriteDigits(buf: array<char>, value: nat, base: nat, upper: bool) returns (n: nat, over: bool)
    requires Radix(base) && value < 0x1_0000_0000_0000_0000 && buf.Length == NTOA_BUFFER_SIZE
    modifies buf
    ensures over <==> base == 2 && value >= 0x8000_0000
    ensures !over ==> n < buf.Length && Reversed(buf[..n]) == Numeral(value, base, upper)
  {
    hide DigitChar, Reversed, HighFirst, LowFirst, Front, Last;
    ManyDigits(value, base, upper);
    ReversedDigits(value, base, upper);
    n := 0;
    if value == 0 {
      buf[0] := '0';
      ReversedZero();
      return 1, false;
    }
    var v: nat := value;
    while v != 0
      invariant n <= buf.Length && n + |LowFirst(v, base, upper)| == |LowFirst(value, base, upper)|
      invariant buf[..n] + LowFirst(v, base, upper) == LowFirst(value, base, upper)
      decreases v
    {
      LowFirstOf(v, base, upper);
      if n == buf.Length {
        return n, true;
      }
      buf[n] := DigitChar(Last(v, base), upper);
      v := Front(v, base);
      n := n + 1;
    }
    LowFirstOf(v, base, upper);
    assert buf[..n] == LowFirst(value, base, upper);
    over := n == buf.Length;
  }

  lemma LowFirstOf(v: nat, base: nat, upper: bool)
    requires Radix(base)
    ensures v == 0 ==> LowFirst(v, base, upper) == []
    ensures v > 0 ==>
      LowFirst(v, base, upper) == [DigitChar(Last(v, base), upper)] + LowFirst(Front(v, base), base, upper)
  {
  }

  lemma ReversedZero()
    ensures Reversed("0") == "0"
  {
  }

  /** reverse on the text of length `n` at the start of a buffer. */
  method Reverse(buf: array<char>, n: nat)
    requires n <= buf.Length
    modifies buf
    ensures buf[..n] == Reversed(old(buf[..n])) && buf[n..] == old(buf[n..])
  {
    var i, j := 0, n - 1;
    while i < j
      invariant 0 <= i && i + j == n - 1 && j >= i - 1
      invariant forall k :: 0 <= k < i ==> buf[k] == old(buf[n - 1 - k])
      invariant forall k :: j < k < n ==> buf[k] == old(buf[n - 1 - k])
      invariant forall k :: i <= k <= j ==> buf[k] == old(buf[k])
      invariant forall k :: n <= k < buf.Length ==> buf[k] == old(buf[k])
    {
      buf[i], buf[j] := buf[j], buf[i];
      i, j := i + 1, j - 1;
    }
  }

  method Pad(out: string, c: char, n: nat) returns (more: string)
    ensures more == out + Fill(c, n)
  {
    more := out;
    for i := 0 to n
      invariant more == out + Fill(c, i)
    {
      more := more + [c];
    }
  }

  /** The source goes astray where it takes the magnitude of the least `long`, which is none, and
      where binary digits leave no room for the null after them. */
  method Ntoa(value: nat, base: nat, opts: Options) returns (out: string, astray: bool)
    requires Radix(base) && value < 0x1_0000_0000_0000_0000
    ensures astray <==>
      || (opts.isSigned && Signed(value) == LONG_MIN)
      || (base == 2 && Magnitude(value, opts) >= 0x8000_0000)
    ensures !astray ==> out == Text(value, base, opts)
  {
    hide Numeral, Reversed, Padding, Fill, Magnitude, Prefix;
    MagnitudeFits(value, opts);
    if opts.isSigned && Signed(value) == LONG_MIN {
      return [], true;
    }
    var number := new char[NTOA_BUFFER_SIZE];
    var len;
    len, astray := WriteDigits(number, Magnitude(value, opts), base, opts.isUpper);
    if astray {
      return [], true;
    }
    var prefix := Prefix(value, base, opts);
    Reverse(number, len);
    var pad := Padding(opts.width, len + |prefix|);
    NoFill();
    out := [];
    if !opts.padRight && (opts.precision != 0 || !opts.padZero) {
      out := Pad(out, ' ', pad);
    }
    out := out + prefix;
    assert out == Fill(' ', if SpacesFirst(opts) then pad else 0) + prefix;
    ghost var zeros := Fill('0', if ZerosFirst(opts) then pad else 0);
    ghost var first := out;
    if opts.padZero && !(opts.precision != 0 || opts.padRight) {
      out := Pad(out, '0', pad);
    }
    assert out == first + zeros;
    out := out + number[..len];
    ghost var second := out;
    if opts.padRight {
      out := Pad(out, ' ', pad);
    }
    assert out == second + Fill(' ', if opts.padRight then pad else 0);
  }

  lemma MagnitudeFits(value: nat, opts: Options)
    requires value < 0x1_0000_0000_0000_0000
    ensures Magnitude(value, opts) < 0x1_0000_0000_0000_0000
  {
  }

  lemma NoFill()
    ensures forall c :: Fill(c, 0) == []
  {
  }

  // ----- back to the number -----

  lemma {:induction false} ValAfter(zeros: string, ds: string, base: nat)
    requires Val(zeros, base) == 0
    ensures Val(zeros + ds, base) == Val(ds, base)
  {
    if ds == [] {
      assert zeros + ds == zeros;
    } else {
      var front := ds[..|ds| - 1];
      ValAfter(zeros, front, base);
      assert (zeros + ds)[..|zeros + ds| - 1] == zeros + front;
    }
  }

  lemma {:induction false} ZerosVal(n: nat, base: nat)
    ensures Val(Fill('0', n), base) == 0
  {
    if n > 0 {
      ZerosVal(n - 1, base);
      assert Fill('0', n)[..n - 1] == Fill('0', n - 1);
    }
  }

  /** Spaces, then a sign or prefix, digits, and the end or a space. */
  ghost predicate Shaped(text: string, a: nat, head: string, body: string) {
    && a + |head| + |body| <= |text| && body != []
    && (forall k :: 0 <= k < a ==> text[k] == ' ')
    && text[a..a + |head|] == head && text[a + |head|..a + |head| + |body|] == body
    && (At(text, a + |head| + |body|) == ' ' || At(text, a + |head| + |body|) == '\0')
  }

  lemma CharFacts()
    ensures Digit('x') == 33 && Digit('X') == 33
    ensures Digit(' ') == 99 && Digit('\0') == 99 && Digit('-') == 99 && Digit('+') == 99
  {
  }

  lemma ShapedHead(text: string, a: nat, head: string, body: string, base: nat)
    requires Radix(base) && (head == "" || head == "-" || head == "+" || (head == "0x" && base == 16))
    requires Shaped(text, a, head, body) && forall k :: 0 <= k < |body| ==> Digit(body[k]) < base
    ensures Negative(text) == (head == "-") && FirstDigit(text, base) == a + |head| && BaseOf(text, base) == base
  {
    hide Digit, Spaces;
    CharFacts();
    var i := a + |head|;
    assert text[i] == body[0];
    assert head != [] ==> text[a] == head[0];
    assert Spaces(text, 0) == a;
    assert |head| == 2 ==> text[a + 1] == head[1];
    assert |body| > 1 ==> text[i + 1] == body[1];
  }

  lemma ShapedRun(text: string, a: nat, head: string, body: string, base: nat)
    requires Radix(base) && Shaped(text, a, head, body) && forall k :: 0 <= k < |body| ==> Digit(body[k]) < base
    ensures RunEnd(text, a + |head|, base) == a + |head| + |body|
  {
    hide Digit, RunEnd;
    CharFacts();
    var i, j := a + |head|, a + |head| + |body|;
    forall k | i <= k < j
      ensures Digit(At(text, k)) < base
    {
      assert text[k] == body[k - i];
    }
    assert Digit(At(text, j)) >= base;
  }

  lemma ShapedParsed(text: string, a: nat, head: string, body: string, base: nat)
    requires Radix(base) && (head == "" || head == "-" || head == "+" || (head == "0x" && base == 16))
    requires Shaped(text, a, head, body) && forall k :: 0 <= k < |body| ==> Digit(body[k]) < base
    ensures Parsed(text, base) == (Clamp(head == "-", Val(body, base)), a + |head| + |body|)
  {
    hide Digit, RunEnd, Negative, FirstDigit, BaseOf, Val, Clamp;
    ShapedHead(text, a, head, body, base);
    ShapedRun(text, a, head, body, base);
  }

  /** The number that should come back: a signed one as it was, an unsigned one up to the largest
      `long`. */
  function Expected(value: nat, opts: Options): int {
    if opts.isSigned then Signed(value) else if value > LONG_MAX then LONG_MAX else value
  }

  /** Where the digits of the text end. */
  function DigitsEnd(value: nat, base: nat, opts: Options): int
    requires Radix(base) && value < 0x1_0000_0000_0000_0000
  {
    var number, prefix := Numeral(Magnitude(value, opts), base, opts.isUpper), Prefix(value, base, opts);
    |Text(value, base, opts)| - if opts.padRight then Padding(opts.width, |number| + |prefix|) else 0
  }

  /** strtol has no prefix for binary numbers. */
  predicate Plain(base: nat, opts: Options) { base == 2 && opts.altForm ==> opts.isSigned }

  /** What _ntoa writes strtol reads back to the last digit, for every width and combination of
      flags, exactly when it is not a binary number with a prefix. */
  lemma RoundTrip(value: nat, base: nat, opts: Options)
    requires Radix(base) && value < 0x1_0000_0000_0000_0000
    ensures
      var text, end := Text(value, base, opts), DigitsEnd(value, base, opts);
      Parsed(text, base) == (Expected(value, opts), end) <==> Plain(base, opts)
    ensures !Plain(base, opts) ==> Parsed(Text(value, base, opts), base).0 == 0
  {
    hide Digit, Parsed, Val, Padding, Numeral, Shaped, Fill, Text, Prefix, Magnitude;
    var a, head, body, r := TextParts(value, base, opts);
    if Plain(base, opts) {
      TextShaped(a, head, body, r);
      ShapedParsed(Text(value, base, opts), a, head, body, base);
      Recovered(value, base, opts);
    } else {
      BinaryPrefix(a, body + Fill(' ', r));
      assert Fill(' ', a) + "0b" + body + Fill(' ', r) == Fill(' ', a) + "0b" + (body + Fill(' ', r));
    }
  }

  /** The digits end where the prefix has its letter. */
  lemma BinaryPrefix(a: nat, rest: string)
    ensures Parsed(Fill(' ', a) + "0b" + rest, 2) == (0, a + 1)
  {
    hide Spaces, RunEnd;
    var text := Fill(' ', a) + "0b" + rest;
    assert text[a] == '0' && text[a + 1] == 'b';
    assert Spaces(text, 0) == a;
    assert Digit(text[a]) == 0 && Digit(text[a + 1]) == 11;
    assert RunEnd(text, a, 2) == a + 1;
    assert text[a..a + 1] == "0";
    assert Val("0", 2) == Val(""[..0], 2) * 2 + 0;
  }

  /** The text as spaces, head, body and spaces: a space for a sign counts with the spaces. */
  lemma TextParts(value: nat, base: nat, opts: Options) returns (a: nat, head: string, body: string, r: nat)
    requires Radix(base) && value < 0x1_0000_0000_0000_0000
    ensures Text(value, base, opts) == Fill(' ', a) + head + body + Fill(' ', r)
    ensures head == Head(value, base, opts)
    ensures
      if Plain(base, opts) then head == "" || head == "-" || head == "+" || (head == "0x" && base == 16)
      else head == "0b"
    ensures body != [] && Val(body, base) == Magnitude(value, opts)
    ensures forall k :: 0 <= k < |body| ==> Digit(body[k]) < base
    ensures a + |head| + |body| == |Text(value, base, opts)| - r
    ensures
      var number, prefix := Numeral(Magnitude(value, opts), base, opts.isUpper), Prefix(value, base, opts);
      r == if opts.padRight then Padding(opts.width, |number| + |prefix|) else 0
  {
    hide Digit, Val, Padding, Numeral, Magnitude;
    var m := Magnitude(value, opts);
    var number, prefix := Numeral(m, base, opts.isUpper), Prefix(value, base, opts);
    var pad := Padding(opts.width, |number| + |prefix|);
    var spaces := if SpacesFirst(opts) then pad else 0;
    var zeros := Fill('0', if ZerosFirst(opts) then pad else 0);
    BodyFacts(m, base, opts.isUpper, if ZerosFirst(opts) then pad else 0);
    r := if opts.padRight then pad else 0;
    head, body := Head(value, base, opts), zeros + number;
    if prefix == " " {
      a := spaces + 1;
      assert Fill(' ', a) == Fill(' ', spaces) + prefix;
    } else {
      a := spaces;
    }
    assert Fill(' ', spaces) + prefix == Fill(' ', a) + head;
    assert Fill(' ', spaces) + prefix + zeros + number == Fill(' ', spaces) + prefix + (zeros + number);
  }

  ghost function Head(value: nat, base: nat, opts: Options): string {
    if Prefix(value, base, opts) == " " then "" else Prefix(value, base, opts)
  }

  lemma BodyFacts(m: nat, base: nat, upper: bool, n: nat)
    requires Radix(base)
    ensures var body := Fill('0', n) + Numeral(m, base, upper);
      body != [] && Val(body, base) == m && forall k :: 0 <= k < |body| ==> Digit(body[k]) < base
  {
    hide Digit, Val, Numeral;
    NumeralFacts(m, base, upper);
    ZerosVal(n, base);
    ValAfter(Fill('0', n), Numeral(m, base, upper), base);
    ZeroDigit();
  }

  lemma Recovered(value: nat, base: nat, opts: Options)
    requires value < 0x1_0000_0000_0000_0000
    ensures Clamp(Head(value, base, opts) == "-", Magnitude(value, opts)) == Expected(value, opts)
  {
  }

  lemma ZeroDigit()
    ensures Digit('0') == 0
  {
  }

  lemma NumeralFacts(v: nat, base: nat, upper: bool)
    requires Radix(base)
    ensures var s := Numeral(v, base, upper);
      s != [] && Val(s, base) == v && forall k :: 0 <= k < |s| ==> Digit(s[k]) < base
  {
    NumeralVal(v, base, upper);
    assert "0"[..0] == [];
  }

  lemma TextShaped(a: nat, head: string, body: string, r: nat)
    requires body != []
    ensures Shaped(Fill(' ', a) + head + body + Fill(' ', r), a, head, body)
  {
    var text := Fill(' ', a) + head + body + Fill(' ', r);
    assert text[a..a + |head|] == head;
    assert text[a + |head|..a + |head| + |body|] == body;
  }
}
