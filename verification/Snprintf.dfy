/** The formatted output of lib/libc/snprintf.c. C strings are sequences without
    their terminating NUL. */
module Snprintf {

  /** Whether the build has 64-bit longs; left open, so all results hold for
      both kinds. */
  const LP64: bool
  const ULONG: nat := if LP64 then 0x1_0000_0000_0000_0000 else 0x1_0000_0000
  const LONG: int := if LP64 then 0x8000_0000_0000_0000 else 0x8000_0000
  /** Size of the digit buffer. */
  const BUF: nat := 25
  /** The width that `%p` sets. */
  const POINTER_WIDTH: nat := if LP64 then 16 else 8

  /** The unbounded output, the width left over and the arguments used. */
  datatype Rendering = Malformed | Rendered(text: string, width: nat, used: nat)

  datatype Arg = Signed(v: int) | Unsigned(u: nat) | Chr(c: char) | Str(s: string) | NullStr

  function Digit(d: nat): (c: char)
    requires d < 16
  {
    if d <= 9 then ('0' as int + d) as char else ('a' as int + d - 10) as char
  }

  predicate IsDigit(c: char) {
    '0' <= c <= '9'
  }

  // Quotient and remainder by name, so that proofs can set the arithmetic aside.
  lemma DivShrinks(u: nat, base: nat, q: nat, r: nat)
    requires base >= 2 && u == base * q + r
    ensures u > 0 ==> q < u
  {
    assert base * q >= 2 * q;
  }

  function Div(u: nat, base: nat): (q: nat)
    requires base >= 2
    ensures u > 0 ==> q < u
  {
    DivShrinks(u, base, u / base, u % base);
    u / base
  }

  function Mod(u: nat, base: nat): (r: nat)
    requires base >= 2
    ensures r < base
  {
    u % base
  }

  lemma DivMod(u: nat, base: nat)
    requires base >= 2
    ensures u == base * Div(u, base) + Mod(u, base)
    ensures Div(u, base) == 0 ==> Mod(u, base) == u
  {
  }

  /** Digits of `u`, least significant first; none for zero. */
  function LowDigits(u: nat, base: nat): string
    requires 2 <= base <= 16
  {
    if u == 0 then [] else [Digit(Mod(u, base))] + LowDigits(Div(u, base), base)
  }

  /** What the digit buffer holds. */
  function Buffer(u: nat, base: nat): string
    requires 2 <= base <= 16
  {
    if u == 0 then "0" else LowDigits(u, base)
  }

  function At(low: string, k: nat): char {
    if k < |low| then low[k] else '0'
  }

  /** Positions `w - 1` down to 0 of the buffer, zeroes beyond its end. */
  function Down(low: string, w: nat): string {
    if w == 0 then [] else [At(low, w - 1)] + Down(low, w - 1)
  }

  function Numeral(u: nat, base: nat, width: nat): string
    requires 2 <= base <= 16
  {
    Down(Buffer(u, base), if width == 0 then |Buffer(u, base)| else width)
  }

  function Base(c: char): (b: nat)
    ensures 2 <= b <= 16
  {
    if c == 'o' then 8 else if c == 'x' || c == 'p' then 16 else 10
  }

  predicate Consumes(c: char) {
    c in "doxpucs"
  }

  /** The argument has the type the conversion reads; `LONG_MIN`, whose negation
      overflows, is not among them. */
  predicate Accepts(c: char, a: Arg) {
    match a
    case Signed(v) => c == 'd' && -LONG < v < LONG
    case Unsigned(u) => c in "oxpu" && u < ULONG
    case Chr(_) => c == 'c'
    case Str(s) => c == 's' && '\0' !in s
    case NullStr => c == 's'
  }

  function Abs(v: int): nat {
    if v < 0 then -v else v
  }

  function Spaces(n: nat): string {
    if n == 0 then [] else [' '] + Spaces(n - 1)
  }

  function Sign(v: int): string {
    if v < 0 then "-" else ""
  }

  function Chars(a: Arg): string
    requires a.Str? || a.NullStr?
  {
    if a.Str? then a.s else "(null)"
  }

  function Pad(s: string, width: nat): string {
    s + Spaces(if |s| < width then width - |s| else 0)
  }

  function Piece(c: char, width: nat, a: Arg): string
    requires Accepts(c, a)
  {
    match a
    case Signed(v) => Sign(v) + Numeral(Abs(v), 10, width)
    case Unsigned(u) => Numeral(u, Base(c), if c == 'p' then POINTER_WIDTH else width)
    case Chr(ch) => [ch]
    case Str(_) => Pad(Chars(a), width)
    case NullStr => Pad(Chars(a), width)
  }

  function Prepend(s: string, rest: Rendering): Rendering {
    if rest.Malformed? then rest else rest.(text := s + rest.text)
  }

  /** The unbounded output from position `i` of the format and argument `j` on;
      `Malformed` if a directive is cut off by the end of the format or its argument
      is missing or of the wrong type. A directive with an unknown letter is
      copied, and leaves its width for the next directive. */
  function Text(fmt: string, i: nat, width: nat, args: seq<Arg>, j: nat): Rendering
    requires i <= |fmt|
    decreases |fmt| - i, 0
  {
    if i == |fmt| then Rendered([], width, j)
    else if fmt[i] == '%' then Directive(fmt, i + 1, width, args, j)
    else Prepend([fmt[i]], Text(fmt, i + 1, width, args, j))
  }

  function Directive(fmt: string, i: nat, width: nat, args: seq<Arg>, j: nat): Rendering
    requires i <= |fmt|
    decreases |fmt| - i, 1
  {
    if i == |fmt| then Malformed
    else if fmt[i] == '0' then Directive(fmt, i + 1, width, args, j)
    else if IsDigit(fmt[i]) then Width(fmt, i + 1, Shift(width, fmt[i]), args, j)
    else Convert(fmt, i, width, args, j)
  }

  function Shift(width: nat, c: char): nat
    requires IsDigit(c)
  {
    width * 10 + (c as int - '0' as int)
  }

  function Width(fmt: string, i: nat, width: nat, args: seq<Arg>, j: nat): Rendering
    requires i <= |fmt|
    decreases |fmt| - i, 2
  {
    if i < |fmt| && IsDigit(fmt[i]) then Width(fmt, i + 1, Shift(width, fmt[i]), args, j)
    else Directive(fmt, i, width, args, j)
  }

  function Convert(fmt: string, i: nat, width: nat, args: seq<Arg>, j: nat): Rendering
    requires i < |fmt| && !IsDigit(fmt[i])
    decreases |fmt| - i, 0
  {
    if fmt[i] == '%' then Prepend("%", Text(fmt, i + 1, 0, args, j))
    else if Consumes(fmt[i]) then
      if j < |args| && Accepts(fmt[i], args[j])
      then Prepend(Piece(fmt[i], width, args[j]), Text(fmt, i + 1, 0, args, j + 1))
      else Malformed
    else Prepend(['%', fmt[i]], Text(fmt, i + 1, width, args, j))
  }

  /** The unbounded output. */
  function Render(fmt: string, args: seq<Arg>): Rendering {
    Text(fmt, 0, 0, args, 0)
  }

  /** What a buffer holds after output of which only `size - 1` bytes fit. */
  function Bounded(total: string, size: nat, before: string): string
    requires 1 <= size <= |before|
  {
    if |total| + 1 < size then total + ['\0'] + before[|total| + 1..]
    else total[..size - 1] + ['\0'] + before[size..]
  }

  /** A format without directives is copied. */
  lemma {:induction false} LiteralText(fmt: string, i: nat, width: nat, args: seq<Arg>, j: nat)
    requires i <= |fmt| && '%' !in fmt
    ensures Text(fmt, i, width, args, j) == Rendered(fmt[i..], width, j)
    decreases |fmt| - i
  {
    if i < |fmt| {
      LiteralText(fmt, i + 1, width, args, j);
      assert [fmt[i]] + fmt[i + 1..] == fmt[i..];
    } else {
      assert fmt[i..] == [];
    }
  }

  // Formats are processed from left to right: what a prefix produces does not
  // depend on what follows it.

  lemma {:induction false} TextAppend(f: string, g: string, i: nat, w: nat, a: seq<Arg>, b: seq<Arg>, j: nat)
    requires i <= |f| && Text(f, i, w, a, j).Rendered?
    ensures var r := Text(f, i, w, a, j);
      Text(f + g, i, w, a + b, j) == Prepend(r.text, Text(f + g, |f|, r.width, a + b, r.used))
    decreases |f| - i, 0
  {
    if i < |f| {
      assert (f + g)[i] == f[i];
      if f[i] == '%' {
        DirectiveAppend(f, g, i + 1, w, a, b, j);
      } else {
        TextAppend(f, g, i + 1, w, a, b, j);
        PrependTwice([f[i]], Text(f, i + 1, w, a, j));
      }
    } else {
      PrependNothing(Text(f + g, i, w, a + b, j));
    }
  }

  lemma PrependTwice(s: string, r: Rendering)
    requires r.Rendered?
    ensures forall rest :: Prepend(s, Prepend(r.text, rest)) == Prepend(Prepend(s, r).text, rest)
  {
    forall rest: Rendering
      ensures Prepend(s, Prepend(r.text, rest)) == Prepend(Prepend(s, r).text, rest)
    {
      if rest.Rendered? {
        assert s + (r.text + rest.text) == (s + r.text) + rest.text;
      }
    }
  }

  lemma PrependNothing(r: Rendering)
    ensures Prepend([], r) == r
  {
    if r.Rendered? {
      assert [] + r.text == r.text;
    }
  }

  lemma {:induction false} DirectiveAppend(f: string, g: string, i: nat, w: nat, a: seq<Arg>, b: seq<Arg>, j: nat)
    requires i <= |f| && Directive(f, i, w, a, j).Rendered?
    ensures var r := Directive(f, i, w, a, j);
      Directive(f + g, i, w, a + b, j) == Prepend(r.text, Text(f + g, |f|, r.width, a + b, r.used))
    decreases |f| - i, 1
  {
    assert (f + g)[i] == f[i];
    if f[i] == '0' {
      DirectiveAppend(f, g, i + 1, w, a, b, j);
    } else if IsDigit(f[i]) {
      WidthAppend(f, g, i + 1, Shift(w, f[i]), a, b, j);
    } else {
      ConvertAppend(f, g, i, w, a, b, j);
    }
  }

  lemma {:induction false} WidthAppend(f: string, g: string, i: nat, w: nat, a: seq<Arg>, b: seq<Arg>, j: nat)
    requires i <= |f| && Width(f, i, w, a, j).Rendered?
    ensures var r := Width(f, i, w, a, j);
      Width(f + g, i, w, a + b, j) == Prepend(r.text, Text(f + g, |f|, r.width, a + b, r.used))
    decreases |f| - i, 2
  {
    assert i < |f|;
    assert (f + g)[i] == f[i];
    if IsDigit(f[i]) {
      WidthAppend(f, g, i + 1, Shift(w, f[i]), a, b, j);
    } else {
      DirectiveAppend(f, g, i, w, a, b, j);
    }
  }

  lemma {:induction false} ConvertAppend(f: string, g: string, i: nat, w: nat, a: seq<Arg>, b: seq<Arg>, j: nat)
    requires i < |f| && !IsDigit(f[i]) && Convert(f, i, w, a, j).Rendered?
    ensures (f + g)[i] == f[i]
    ensures var r := Convert(f, i, w, a, j);
      Convert(f + g, i, w, a + b, j) == Prepend(r.text, Text(f + g, |f|, r.width, a + b, r.used))
    decreases |f| - i, 0
  {
    hide Piece;
    if f[i] == '%' {
      TextAppend(f, g, i + 1, 0, a, b, j);
      PrependTwice("%", Text(f, i + 1, 0, a, j));
    } else if Consumes(f[i]) {
      assert (a + b)[j] == a[j];
      TextAppend(f, g, i + 1, 0, a, b, j + 1);
      PrependTwice(Piece(f[i], w, a[j]), Text(f, i + 1, 0, a, j + 1));
    } else {
      TextAppend(f, g, i + 1, w, a, b, j);
      PrependTwice(['%', f[i]], Text(f, i + 1, w, a, j));
    }
  }

  function Moved(r: Rendering, n: nat): Rendering {
    if r.Malformed? then r else r.(used := r.used + n)
  }

  lemma {:induction false} TextShift(f: string, g: string, i: nat, w: nat, a: seq<Arg>, b: seq<Arg>, j: nat)
    requires i <= |g|
    ensures Text(f + g, |f| + i, w, a + b, |a| + j) == Moved(Text(g, i, w, b, j), |a|)
    decreases |g| - i, 0
  {
    if i < |g| {
      assert (f + g)[|f| + i] == g[i];
      if g[i] == '%' {
        DirectiveShift(f, g, i + 1, w, a, b, j);
      } else {
        TextShift(f, g, i + 1, w, a, b, j);
      }
    }
  }

  lemma {:induction false} DirectiveShift(f: string, g: string, i: nat, w: nat, a: seq<Arg>, b: seq<Arg>, j: nat)
    requires i <= |g|
    ensures Directive(f + g, |f| + i, w, a + b, |a| + j) == Moved(Directive(g, i, w, b, j), |a|)
    decreases |g| - i, 1
  {
    if i < |g| {
      assert (f + g)[|f| + i] == g[i];
      if g[i] == '0' {
        DirectiveShift(f, g, i + 1, w, a, b, j);
      } else if IsDigit(g[i]) {
        WidthShift(f, g, i + 1, Shift(w, g[i]), a, b, j);
      } else {
        ConvertShift(f, g, i, w, a, b, j);
      }
    }
  }

  lemma {:induction false} WidthShift(f: string, g: string, i: nat, w: nat, a: seq<Arg>, b: seq<Arg>, j: nat)
    requires i <= |g|
    ensures Width(f + g, |f| + i, w, a + b, |a| + j) == Moved(Width(g, i, w, b, j), |a|)
    decreases |g| - i, 2
  {
    if i < |g| && IsDigit(g[i]) {
      assert (f + g)[|f| + i] == g[i];
      WidthShift(f, g, i + 1, Shift(w, g[i]), a, b, j);
    } else {
      assert i < |g| ==> (f + g)[|f| + i] == g[i];
      DirectiveShift(f, g, i, w, a, b, j);
    }
  }

  lemma {:induction false} ConvertShift(f: string, g: string, i: nat, w: nat, a: seq<Arg>, b: seq<Arg>, j: nat)
    requires i < |g| && !IsDigit(g[i])
    ensures (f + g)[|f| + i] == g[i]
    ensures Convert(f + g, |f| + i, w, a + b, |a| + j) == Moved(Convert(g, i, w, b, j), |a|)
    decreases |g| - i, 0
  {
    hide Piece;
    if g[i] == '%' {
      TextShift(f, g, i + 1, 0, a, b, j);
    } else if Consumes(g[i]) {
      if j < |b| {
        assert (a + b)[|a| + j] == b[j];
        TextShift(f, g, i + 1, 0, a, b, j + 1);
      }
    } else {
      TextShift(f, g, i + 1, w, a, b, j);
    }
  }

  /** Rendering is sequential: a format that uses up its arguments and leaves no
      width behind can be split off. */
  lemma RenderConcat(f: string, g: string, a: seq<Arg>, b: seq<Arg>)
    requires Render(f, a).Rendered? && Render(f, a).width == 0 && Render(f, a).used == |a|
    ensures Render(f + g, a + b) == Prepend(Render(f, a).text, Moved(Render(g, b), |a|))
  {
    TextAppend(f, g, 0, 0, a, b, 0);
    TextShift(f, g, 0, 0, a, b, 0);
  }

  // Reading numerals back.

  function Pow(base: nat, e: nat): nat {
    if e == 0 then 1 else base * Pow(base, e - 1)
  }

  function DigitValue(c: char): nat {
    if IsDigit(c) then c as int - '0' as int else if 'a' <= c <= 'f' then c as int - 'a' as int + 10 else 0
  }

  /** The number a string of digits denotes, after `acc`. */
  function Read(acc: nat, s: string, base: nat): nat
    decreases |s|
  {
    if s == [] then acc else Read(acc * base + DigitValue(s[0]), s[1..], base)
  }

  function ReadSigned(s: string): int {
    if s != [] && s[0] == '-' then -(Read(0, s[1..], 10) as int) else Read(0, s, 10)
  }

  /** Digit `k` of a number, and the number its `w` low digits make. */
  function Nth(u: nat, base: nat, k: nat): nat
    requires base >= 2
    decreases k
  {
    if k == 0 then Mod(u, base) else Nth(Div(u, base), base, k - 1)
  }

  function Low(u: nat, base: nat, w: nat): nat
    requires base >= 2
    decreases w
  {
    if w == 0 then 0 else Mod(u, base) + base * Low(Div(u, base), base, w - 1)
  }

  lemma DigitReads(d: nat)
    requires d < 16
    ensures DigitValue(Digit(d)) == d && (d != 0 ==> Digit(d) != '0')
  {
  }

  lemma {:induction false} LowDigitsNth(u: nat, base: nat, k: nat)
    requires 2 <= base <= 16
    ensures DigitValue(At(LowDigits(u, base), k)) == Nth(u, base, k)
    decreases k
  {
    hide Div, Mod, DigitValue;
    DigitReads(Mod(u, base));
    if u == 0 {
      DigitReads(0);
      NthZero(base, k);
    } else if k > 0 {
      LowDigitsNth(Div(u, base), base, k - 1);
      assert At(LowDigits(u, base), k) == At(LowDigits(Div(u, base), base), k - 1);
    }
  }

  lemma {:induction false} NthZero(base: nat, k: nat)
    requires base >= 2
    ensures Nth(0, base, k) == 0
    decreases k
  {
    if k > 0 {
      NthZero(base, k - 1);
    }
  }

  lemma Exchange(d: nat, p: nat, base: nat, r: nat, m: nat)
    ensures r + base * (d * p + m) == d * (base * p) + (r + base * m)
  {
    assert base * (d * p + m) == base * (d * p) + base * m;
    assert base * (d * p) == d * (base * p);
  }

  /** The top digit of the `w` low ones. */
  lemma {:induction false} LowTop(u: nat, base: nat, w: nat)
    requires base >= 2 && w > 0
    ensures Low(u, base, w) == Nth(u, base, w - 1) * Pow(base, w - 1) + Low(u, base, w - 1)
    decreases w
  {
    if w == 1 {
      assert Low(Div(u, base), base, 0) == 0;
    } else {
      LowTop(Div(u, base), base, w - 1);
      Exchange(Nth(Div(u, base), base, w - 2), Pow(base, w - 2), base, Mod(u, base), Low(Div(u, base), base, w - 2));
    }
  }

  lemma Grow(acc: nat, base: nat, d: nat, p: nat)
    ensures (acc * base + d) * p == acc * (base * p) + d * p
  {
  }

  lemma {:induction false} ReadDown(acc: nat, u: nat, base: nat, low: string, w: nat)
    requires 2 <= base <= 16 && forall k: nat :: DigitValue(At(low, k)) == Nth(u, base, k)
    ensures Read(acc, Down(low, w), base) == acc * Pow(base, w) + Low(u, base, w)
    decreases w
  {
    if w > 0 {
      var d := Nth(u, base, w - 1);
      assert DigitValue(At(low, w - 1)) == d;
      assert Down(low, w)[1..] == Down(low, w - 1);
      ReadDown(acc * base + d, u, base, low, w - 1);
      LowTop(u, base, w);
      Grow(acc, base, d, Pow(base, w - 1));
    }
  }

  lemma BufferNth(u: nat, base: nat, k: nat)
    requires 2 <= base <= 16
    ensures DigitValue(At(Buffer(u, base), k)) == Nth(u, base, k)
  {
    LowDigitsNth(u, base, k);
    NthZero(base, k);
  }

  lemma ReadNumeral(u: nat, base: nat, w: nat)
    requires 2 <= base <= 16
    ensures Read(0, Down(Buffer(u, base), w), base) == Low(u, base, w)
  {
    forall k: nat ensures DigitValue(At(Buffer(u, base), k)) == Nth(u, base, k) {
      BufferNth(u, base, k);
    }
    ReadDown(0, u, base, Buffer(u, base), w);
  }

  lemma {:induction false} LowAll(u: nat, base: nat)
    requires 2 <= base <= 16
    ensures Low(u, base, |LowDigits(u, base)|) == u
  {
    hide Div, Mod;
    if u > 0 {
      DivMod(u, base);
      LowAll(Div(u, base), base);
    }
  }

  lemma DivModUnique(x: nat, m: nat, q: nat, r: nat)
    requires m > 0 && x == m * q + r && r < m
    ensures x % m == r
  {
    var q', r' := x / m, x % m;
    assert x == m * q' + r';
    assert q' < q ==> m * (q' + 1) <= m * q;
    assert q < q' ==> m * (q + 1) <= m * q';
  }

  lemma {:induction false} PowPositive(base: nat, w: nat)
    requires base > 0
    ensures Pow(base, w) > 0
  {
    if w > 0 {
      PowPositive(base, w - 1);
    }
  }

  lemma PeelBound(r: nat, base: nat, t: nat, m: nat)
    requires r < base && t < m
    ensures r + base * t < base * m
  {
    assert base * (t + 1) <= base * m;
  }

  lemma PeelSplit(u: nat, r: nat, base: nat, q: nat, m: nat, t: nat, v: nat)
    requires u == base * v + r && v == m * q + t
    ensures u == (base * m) * q + (r + base * t)
  {
    assert base * (m * q + t) == base * (m * q) + base * t;
    assert base * (m * q) == (base * m) * q;
  }

  lemma Peel(u: nat, r: nat, base: nat, q: nat, m: nat, t: nat, v: nat)
    requires base > 0 && m > 0 && u == base * v + r && v == m * q + t && r < base && t < m
    ensures base * m > 0 && u % (base * m) == r + base * t
  {
    PeelSplit(u, r, base, q, m, t, v);
    PeelBound(r, base, t, m);
    DivModUnique(u, base * m, q, r + base * t);
  }

  lemma ModPeel(u: nat, base: nat, m: nat)
    requires base >= 2 && m > 0
    ensures base * m > 0 && u % (base * m) == Mod(u, base) + base * (Div(u, base) % m)
  {
    hide Div, Mod;
    DivMod(u, base);
    var v := Div(u, base);
    Peel(u, Mod(u, base), base, v / m, m, v % m, v);
  }

  lemma {:induction false} LowIsMod(u: nat, base: nat, w: nat)
    requires base >= 2
    ensures Pow(base, w) > 0 && Low(u, base, w) == u % Pow(base, w)
    decreases w
  {
    hide Div, Mod;
    PowPositive(base, w);
    if w > 0 {
      LowIsMod(Div(u, base), base, w - 1);
      ModPeel(u, base, Pow(base, w - 1));
    }
  }

  lemma {:induction false} DownLength(low: string, w: nat)
    ensures |Down(low, w)| == w
    ensures w > 0 ==> Down(low, w)[0] == At(low, w - 1)
    ensures forall c :: c in Down(low, w) ==> c == '0' || c in low
  {
    if w > 0 {
      DownLength(low, w - 1);
    }
  }

  /** A width prints exactly that many digits, of the magnitude modulo the
      base's power. */
  lemma WidthKeepsLowDigits(u: nat, base: nat, width: nat)
    requires 2 <= base <= 16 && width > 0
    ensures |Numeral(u, base, width)| == width
    ensures Pow(base, width) > 0 && Read(0, Numeral(u, base, width), base) == u % Pow(base, width)
  {
    DownLength(Buffer(u, base), width);
    ReadNumeral(u, base, width);
    LowIsMod(u, base, width);
  }

  lemma {:induction false} TopDigit(u: nat, base: nat)
    requires 2 <= base <= 16 && u > 0
    ensures var low := LowDigits(u, base); low != [] && low[|low| - 1] != '0'
    decreases u
  {
    hide Div, Mod, Digit;
    DigitReads(Mod(u, base));
    DivMod(u, base);
    if Div(u, base) > 0 {
      TopDigit(Div(u, base), base);
    }
  }

  /** Without a width a numeral reads back to its argument and has no leading
      zero. */
  lemma NumeralReadsBack(u: nat, base: nat)
    requires 2 <= base <= 16
    ensures Read(0, Numeral(u, base, 0), base) == u
    ensures Numeral(u, base, 0) != [] && (u > 0 ==> Numeral(u, base, 0)[0] != '0')
  {
    ReadNumeral(u, base, |Buffer(u, base)|);
    DownLength(Buffer(u, base), |Buffer(u, base)|);
    if u > 0 {
      LowAll(u, base);
      TopDigit(u, base);
    } else {
      assert Low(Div(0, base), base, 0) == 0;
    }
  }

  lemma {:induction false} LowDigitsNoMinus(u: nat, base: nat)
    requires 2 <= base <= 16
    ensures '-' !in LowDigits(u, base)
  {
    if u > 0 {
      LowDigitsNoMinus(Div(u, base), base);
    }
  }

  lemma SignedReadsBack(v: int)
    requires -LONG < v < LONG
    ensures ReadSigned(Piece('d', 0, Signed(v))) == v
  {
    var n := Numeral(Abs(v), 10, 0);
    NumeralReadsBack(Abs(v), 10);
    DownLength(Buffer(Abs(v), 10), |Buffer(Abs(v), 10)|);
    LowDigitsNoMinus(Abs(v), 10);
    if v < 0 {
      assert ("-" + n)[1..] == n;
    } else {
      assert n[0] in n && [] + n == n;
    }
  }

  lemma DivBound(base: nat, q: nat, r: nat, p: nat)
    requires base * q + r < base * p
    ensures q < p
  {
    assert q >= p ==> base * q >= base * p;
  }

  lemma {:induction false} LowDigitsBound(u: nat, base: nat, e: nat)
    requires 2 <= base <= 16 && u < Pow(base, e)
    ensures |LowDigits(u, base)| <= e
    decreases e
  {
    hide Div, Mod;
    if u > 0 && e > 0 {
      DivMod(u, base);
      DivBound(base, Div(u, base), Mod(u, base), Pow(base, e - 1));
      LowDigitsBound(Div(u, base), base, e - 1);
    }
  }

  lemma TimesMonotone(a: nat, b: nat, x: nat, y: nat)
    requires a <= b && x <= y
    ensures a * x <= b * y
  {
    assert a * x <= a * y;
    assert a * y <= b * y;
  }

  lemma {:induction false} PowMonotone(a: nat, b: nat, e: nat)
    requires a <= b
    ensures Pow(a, e) <= Pow(b, e)
  {
    if e > 0 {
      PowMonotone(a, b, e - 1);
      TimesMonotone(a, b, Pow(a, e - 1), Pow(b, e - 1));
    }
  }

  lemma Pow8()
    ensures ULONG <= Pow(8, 22)
  {
    assert Pow(8, 4) == 4096;
    assert Pow(8, 8) == 4096 * 4096;
    assert Pow(8, 12) == 4096 * 4096 * 4096;
    assert Pow(8, 16) == 4096 * 4096 * 4096 * 4096;
    assert Pow(8, 20) == 4096 * 4096 * 4096 * 4096 * 4096;
  }

  /** No conversion needs more than 22 of the 25 bytes of the digit buffer. */
  lemma DigitsFit(u: nat, base: nat)
    requires u < ULONG && 8 <= base <= 16
    ensures |Buffer(u, base)| <= 22
  {
    Pow8();
    PowMonotone(8, base, 22);
    LowDigitsBound(u, base, 22);
  }

  lemma Pow16()
    ensures Pow(16, 8) == 0x1_0000_0000 && Pow(16, 16) == 0x1_0000_0000_0000_0000
  {
    assert Pow(16, 4) == 0x1_0000;
    assert Pow(16, 12) == 0x1_0000_0000_0000;
  }

  lemma ModSmall(u: nat, p: nat)
    requires u < p
    ensures u % p == u
  {
  }

  /** `%p` prints the whole pointer, whatever width was asked for. */
  lemma PointerReadsBack(u: nat, width: nat)
    requires u < ULONG
    ensures |Piece('p', width, Unsigned(u))| == POINTER_WIDTH
    ensures Read(0, Piece('p', width, Unsigned(u)), 16) == u
  {
    hide Pow, Read, Numeral, Sign, Pad;
    Pow16();
    WidthKeepsLowDigits(u, 16, POINTER_WIDTH);
    ModSmall(u, Pow(16, POINTER_WIDTH));
  }

  // What each conversion prints, said without the functions that print it.

  const DIGITS: string := "0123456789abcdef"

  /** `t` is the number `u` written in base `b`: without a width in full and
      without leading zeroes, with a width as its low digits. */
  ghost predicate IsNumeral(t: string, u: nat, b: nat, width: nat)
    requires 2 <= b <= 16
  {
    && (forall i :: 0 <= i < |t| ==> t[i] in DIGITS[..b])
    && if width == 0 then Read(0, t, b) == u && t != [] && (|t| > 1 ==> t[0] != '0')
       else |t| == width && Pow(b, width) > 0 && Read(0, t, b) == u % Pow(b, width)
  }

  /** `t` is `s` with blanks behind it, up to the width. */
  ghost predicate IsPadded(t: string, s: string, width: nat) {
    && |t| == (if |s| < width then width else |s|) && t[..|s|] == s
    && forall i :: |s| <= i < |t| ==> t[i] == ' '
  }

  /** `t` is what conversion `c` with a width is to print for `a`. */
  ghost predicate Prints(c: char, width: nat, a: Arg, t: string)
    requires Accepts(c, a)
  {
    match a
    case Signed(v) =>
      if v < 0 then t != [] && t[0] == '-' && IsNumeral(t[1..], -v, 10, width) else IsNumeral(t, v, 10, width)
    case Unsigned(u) =>
      if c == 'o' then IsNumeral(t, u, 8, width)
      else if c == 'u' then IsNumeral(t, u, 10, width)
      else if c == 'x' then IsNumeral(t, u, 16, width)
      else |t| == (if LP64 then 16 else 8) && Read(0, t, 16) == u && forall i :: 0 <= i < |t| ==> t[i] in DIGITS
    case Chr(ch) => t == [ch]
    case Str(s) => IsPadded(t, s, width)
    case NullStr => IsPadded(t, "(null)", width)
  }

  lemma DigitListed(d: nat, b: nat)
    requires d < b <= 16
    ensures Digit(d) in DIGITS[..b]
  {
    assert Digit(d) == DIGITS[d];
    assert DIGITS[..b][d] == DIGITS[d];
  }

  lemma {:induction false} LowDigitsListed(u: nat, base: nat)
    requires 2 <= base <= 16
    ensures forall c :: c in LowDigits(u, base) ==> c in DIGITS[..base]
  {
    hide Div, Mod, Digit;
    if u > 0 {
      DigitListed(Mod(u, base), base);
      LowDigitsListed(Div(u, base), base);
    }
  }

  lemma NumeralMeans(u: nat, base: nat, width: nat)
    requires 2 <= base <= 16
    ensures IsNumeral(Numeral(u, base, width), u, base, width)
  {
    hide Read, Pow, LowDigits;
    var w := if width == 0 then |Buffer(u, base)| else width;
    DownLength(Buffer(u, base), w);
    LowDigitsListed(u, base);
    DigitListed(0, base);
    assert Digit(0) == '0';
    if width == 0 {
      NumeralReadsBack(u, base);
    } else {
      WidthKeepsLowDigits(u, base, width);
    }
    forall i | 0 <= i < |Down(Buffer(u, base), w)| ensures Down(Buffer(u, base), w)[i] in DIGITS[..base] {
      assert Down(Buffer(u, base), w)[i] in Down(Buffer(u, base), w);
    }
  }

  lemma {:induction false} SpacesBlank(n: nat)
    ensures |Spaces(n)| == n && forall i :: 0 <= i < n ==> Spaces(n)[i] == ' '
  {
    if n > 0 {
      SpacesBlank(n - 1);
    }
  }

  lemma PadMeans(s: string, width: nat)
    ensures IsPadded(Pad(s, width), s, width)
  {
    SpacesBlank(if |s| < width then width - |s| else 0);
  }

  lemma DigitsAll(t: string)
    requires forall i :: 0 <= i < |t| ==> t[i] in DIGITS[..16]
    ensures forall i :: 0 <= i < |t| ==> t[i] in DIGITS
  {
    assert DIGITS[..16] == DIGITS;
  }

  /** Every conversion prints what it should, for every width and argument. */
  lemma PieceMeans(c: char, width: nat, a: Arg)
    requires Accepts(c, a)
    ensures Prints(c, width, a, Piece(c, width, a))
  {
    hide Numeral, Read, Pow, IsNumeral, Pad;
    match a
    case Signed(v) =>
      NumeralMeans(Abs(v), 10, width);
      var n := Numeral(Abs(v), 10, width);
      assert ("-" + n)[1..] == n && "" + n == n;
    case Unsigned(u) =>
      NumeralMeans(u, Base(c), if c == 'p' then POINTER_WIDTH else width);
      if c == 'p' {
        PointerReadsBack(u, width);
        PointerDigits(u, width);
      }
    case Chr(_) =>
    case Str(s) => PadMeans(s, width);
    case NullStr => PadMeans("(null)", width);
  }

  lemma PointerDigits(u: nat, width: nat)
    requires u < ULONG
    ensures forall i :: 0 <= i < |Piece('p', width, Unsigned(u))| ==> Piece('p', width, Unsigned(u))[i] in DIGITS
  {
    hide Numeral, Read, Pow;
    NumeralMeans(u, 16, POINTER_WIDTH);
    DigitsAll(Numeral(u, 16, POINTER_WIDTH));
  }

  predicate AllDigits(d: string) {
    forall i :: 0 <= i < |d| ==> IsDigit(d[i])
  }

  /** The digits of a directive make up its width. */
  lemma {:induction false} WidthReads(fmt: string, i: nat, k: nat, w: nat, args: seq<Arg>, j: nat)
    requires i <= k < |fmt| && !IsDigit(fmt[k]) && AllDigits(fmt[i..k])
    ensures Width(fmt, i, w, args, j) == Convert(fmt, k, Read(w, fmt[i..k], 10), args, j)
    decreases k - i
  {
    if i < k {
      ReadNext(fmt, i, k, w);
      WidthReads(fmt, i + 1, k, Shift(w, fmt[i]), args, j);
    } else {
      assert fmt[i..k] == [];
    }
  }

  lemma ReadNext(fmt: string, i: nat, k: nat, w: nat)
    requires i < k <= |fmt| && AllDigits(fmt[i..k])
    ensures IsDigit(fmt[i]) && AllDigits(fmt[i + 1..k])
    ensures Read(w, fmt[i..k], 10) == Read(Shift(w, fmt[i]), fmt[i + 1..k], 10)
  {
    assert fmt[i..k][0] == fmt[i] && fmt[i..k][1..] == fmt[i + 1..k];
    var all, rest := fmt[i..k], fmt[i + 1..k];
    assert forall x :: 0 <= x < |rest| ==> rest[x] == all[x + 1];
  }

  lemma {:induction false} DirectiveReads(fmt: string, i: nat, k: nat, args: seq<Arg>, j: nat)
    requires i <= k < |fmt| && !IsDigit(fmt[k]) && AllDigits(fmt[i..k])
    ensures Directive(fmt, i, 0, args, j) == Convert(fmt, k, Read(0, fmt[i..k], 10), args, j)
    decreases k - i
  {
    if i < k {
      ReadNext(fmt, i, k, 0);
      if fmt[i] == '0' {
        DirectiveReads(fmt, i + 1, k, args, j);
      } else {
        WidthReads(fmt, i + 1, k, Shift(0, fmt[i]), args, j);
      }
    } else {
      assert fmt[i..k] == [];
    }
  }

  /** A format of one directive, with any digits between `%` and the letter. */
  function OneDirective(d: string, c: char): string {
    ['%'] + d + [c]
  }

  lemma OneDirectiveConverts(d: string, c: char, args: seq<Arg>)
    requires AllDigits(d) && !IsDigit(c)
    ensures |OneDirective(d, c)| == |d| + 2 && OneDirective(d, c)[|d| + 1] == c
    ensures Render(OneDirective(d, c), args) == Convert(OneDirective(d, c), |d| + 1, Read(0, d, 10), args, 0)
  {
    hide Convert, Read;
    var fmt := OneDirective(d, c);
    assert fmt[1..|d| + 1] == d;
    DirectiveReads(fmt, 1, |d| + 1, args, 0);
  }

  /** `%`, digits and a letter that takes an argument print that argument as the
      letter says, the digits being the width. */
  lemma DirectivePrints(d: string, c: char, a: Arg)
    requires AllDigits(d) && Accepts(c, a)
    ensures var r := Render(OneDirective(d, c), [a]);
      r.Rendered? && r.width == 0 && r.used == 1 && Prints(c, Read(0, d, 10), a, r.text)
  {
    hide Read, Piece, Prints, OneDirective;
    OneDirectiveConverts(d, c, [a]);
    PieceMeans(c, Read(0, d, 10), a);
    var p := Piece(c, Read(0, d, 10), a);
    assert p + [] == p;
  }

  /** A doubled `%` prints one, whatever width is between the two; a letter that
      is no conversion is printed with its `%`, without the width, which is kept. */
  lemma DirectiveCopies(d: string, c: char)
    requires AllDigits(d) && !IsDigit(c) && c !in "doxpucs"
    ensures Render(OneDirective(d, c), []) ==
      if c == '%' then Rendered("%", 0, 0) else Rendered(['%', c], Read(0, d, 10), 0)
  {
    hide Read, OneDirective;
    OneDirectiveConverts(d, c, []);
    assert "%" + [] == "%" && ['%', c] + [] == ['%', c];
  }

  // The bounded buffer.

  /** Byte by byte: as much of the output as fits, a NUL, the old bytes. */
  lemma BoundedMeans(total: string, size: nat, before: string)
    requires 1 <= size <= |before|
    ensures var r, m := Bounded(total, size, before), if |total| < size then |total| else size - 1;
      && |r| == |before| && r[m] == '\0'
      && (forall i :: 0 <= i < m ==> r[i] == total[i])
      && (forall i :: m < i < |r| ==> r[i] == before[i])
  {
  }

  /** `out` has been written, with room for at least one more byte. */
  ghost predicate Filled(str: array<char>, size: nat, out: string, before: string)
    reads str
  {
    |out| < size <= str.Length == |before| && str[..] == out + before[|out|..]
  }

  /** The buffer ran full while `out` was written. */
  ghost predicate Truncated(str: array<char>, size: nat, out: string, before: string)
    reads str
  {
    1 <= size <= |out| && size <= |before| && str[..] == out[..size - 1] + ['\0'] + before[size..]
  }

  /** The state after `out` was written, the call still going on or over. */
  ghost predicate Wrote(str: array<char>, size: nat, pos: nat, full: bool, out: string, before: string)
    reads str
  {
    if full then Truncated(str, size, out, before) else pos == |out| && Filled(str, size, out, before)
  }

  lemma TruncatedMore(str: array<char>, size: nat, out: string, more: string, before: string)
    requires Truncated(str, size, out, before)
    ensures Truncated(str, size, out + more, before)
  {
    assert (out + more)[..size - 1] == out[..size - 1];
  }

  /** `set_ch`; `full` stands for the return it may make. */
  method SetCh(str: array<char>, size: nat, pos: nat, ch: char, ghost out: string, ghost before: string)
    returns (pos': nat, full: bool)
    requires Wrote(str, size, pos, false, out, before)
    modifies str
    ensures Wrote(str, size, pos', full, out + [ch], before)
  {
    str[pos] := ch;
    assert str[..] == out + [ch] + before[pos + 1..];
    pos' := pos + 1;
    full := pos' == size;
    if full {
      str[size - 1] := '\0';
      assert (out + [ch])[..size - 1] == out;
    }
  }

  /** Writes positions `w - 1` down to 0 of the digit buffer, zeroes beyond its
      end. */
  method PutDigits(str: array<char>, size: nat, pos: nat, buf: array<char>, len: nat, w: nat,
      ghost out: string, ghost before: string) returns (pos': nat, full: bool)
    requires Wrote(str, size, pos, false, out, before) && len <= buf.Length && buf != str
    modifies str
    ensures Wrote(str, size, pos', full, out + Down(buf[..len], w), before)
  {
    pos', full := pos, false;
    var width: nat := w;
    ghost var low, now := buf[..len], out;
    while width > 0
      invariant width <= w && buf[..len] == low
      invariant Wrote(str, size, pos', false, now, before)
      invariant now + Down(low, width) == out + Down(low, w)
    {
      width := width - 1;
      var ch := if width >= len then '0' else buf[width];
      assert ch == At(low, width);
      pos', full := SetCh(str, size, pos', ch, now, before);
      Shifted(now, ch, Down(low, width));
      now := now + [ch];
      if full {
        TruncatedMore(str, size, now, Down(low, width), before);
        return;
      }
    }
    assert now + [] == now;
  }

  lemma Shifted(a: string, c: char, b: string)
    ensures a + ([c] + b) == (a + [c]) + b
  {
  }

  /** The digit loop. It stays inside the buffer. */
  method PutBuffer(u: nat, base: nat, buf: array<char>) returns (len: nat)
    requires u < ULONG && 8 <= base <= 16 && buf.Length == BUF
    modifies buf
    ensures len <= 22 && buf[..len] == Buffer(u, base)
  {
    DigitsFit(u, base);
    len := 0;
    var uval: nat := u;
    ghost var low := LowDigits(u, base);
    while uval > 0
      invariant len <= |low| && buf[..len] + LowDigits(uval, base) == low
    {
      Shifted(buf[..len], Digit(Mod(uval, base)), LowDigits(Div(uval, base), base));
      buf[len] := Digit(uval % base);
      uval := Div(uval, base);
      len := len + 1;
      assert buf[..len] == buf[..len - 1] + [buf[len - 1]];
    }
    assert buf[..len] + [] == buf[..len];
    if len == 0 {
      buf[0] := '0';
      len := 1;
    }
  }

  /** `print_uint`. */
  method PrintNumber(str: array<char>, size: nat, pos: nat, neg: bool, u: nat, base: nat, width: nat,
      ghost out: string, ghost before: string) returns (pos': nat, full: bool)
    requires Wrote(str, size, pos, false, out, before) && u < ULONG && 8 <= base <= 16
    modifies str
    ensures Wrote(str, size, pos', full, out + ((if neg then "-" else "") + Numeral(u, base, width)), before)
  {
    var buf := new char[BUF];
    var len := PutBuffer(u, base, buf);
    pos', full := pos, false;
    ghost var now, text := out, Numeral(u, base, width);
    if neg {
      pos', full := SetCh(str, size, pos', '-', now, before);
      now := now + ['-'];
      if full {
        TruncatedMore(str, size, now, text, before);
        Shifted(out, '-', text);
        return;
      }
      Shifted(out, '-', text);
    } else {
      assert "" + text == text;
    }
    pos', full := PutDigits(str, size, pos', buf, len, if width == 0 then len else width, now, before);
  }

  /** The `%s` conversion: the characters, then blanks up to the width. */
  method PrintString(str: array<char>, size: nat, pos: nat, s: string, width: nat,
      ghost out: string, ghost before: string) returns (pos': nat, full: bool)
    requires Wrote(str, size, pos, false, out, before)
    modifies str
    ensures Wrote(str, size, pos', full, out + Pad(s, width), before)
  {
    pos', full := pos, false;
    var len := 0;
    ghost var now, text := out, Pad(s, width);
    while len < |s|
      invariant len <= |s| && Wrote(str, size, pos', false, now, before) && now == out + s[..len]
    {
      pos', full := SetCh(str, size, pos', s[len], now, before);
      now := now + [s[len]];
      len := len + 1;
      if full {
        TruncatedMore(str, size, now, text[len..], before);
        assert text[..len] == s[..len] && text == text[..len] + text[len..];
        return;
      }
    }
    assert s[..len] == s;
    while len < width
      invariant |s| <= len && (len <= width || len == |s|) && Wrote(str, size, pos', false, now, before)
      invariant now + Spaces(if len < width then width - len else 0) == out + text
    {
      Shifted(now, ' ', Spaces(width - len - 1));
      pos', full := SetCh(str, size, pos', ' ', now, before);
      now := now + [' '];
      len := len + 1;
      if full {
        TruncatedMore(str, size, now, Spaces(width - len), before);
        return;
      }
    }
    assert now + [] == now;
  }

  method PrintPiece(str: array<char>, size: nat, pos: nat, c: char, width: nat, a: Arg,
      ghost out: string, ghost before: string) returns (pos': nat, full: bool)
    requires Wrote(str, size, pos, false, out, before) && Accepts(c, a)
    modifies str
    ensures Wrote(str, size, pos', full, out + Piece(c, width, a), before)
  {
    match a
    case Signed(v) =>
      pos', full := PrintNumber(str, size, pos, v < 0, Abs(v), 10, width, out, before);
    case Unsigned(u) =>
      pos', full := PrintNumber(str, size, pos, false, u, Base(c), if c == 'p' then POINTER_WIDTH else width, out, before);
      assert "" + Piece(c, width, a) == Piece(c, width, a);
    case Chr(ch) =>
      pos', full := SetCh(str, size, pos, ch, out, before);
    case Str(s) =>
      pos', full := PrintString(str, size, pos, s, width, out, before);
    case NullStr =>
      pos', full := PrintString(str, size, pos, "(null)", width, out, before);
  }

  /** The flag and width part of a directive. */
  method ScanWidth(fmt: string, start: nat, width0: nat, ghost args: seq<Arg>, ghost j: nat)
    returns (i: nat, width: nat)
    requires start <= |fmt| && Directive(fmt, start, width0, args, j).Rendered?
    ensures start <= i < |fmt| && !IsDigit(fmt[i])
    ensures Convert(fmt, i, width, args, j) == Directive(fmt, start, width0, args, j)
  {
    i, width := start, width0;
    while IsDigit(fmt[i])
      invariant start <= i < |fmt|
      invariant Directive(fmt, i, width, args, j) == Directive(fmt, start, width0, args, j)
      decreases |fmt| - i
    {
      if fmt[i] == '0' {
        i := i + 1;
      } else {
        i, width := i + 1, Shift(width, fmt[i]);
        while i < |fmt| && IsDigit(fmt[i])
          invariant start <= i <= |fmt|
          invariant Width(fmt, i, width, args, j) == Directive(fmt, start, width0, args, j)
        {
          i, width := i + 1, Shift(width, fmt[i]);
        }
      }
    }
  }

  lemma Untouched(str: array<char>, size: nat)
    requires 1 <= size <= str.Length
    ensures Filled(str, size, [], str[..])
  {
  }

  lemma FinishedShort(str: array<char>, size: nat, total: string, before: string)
    requires Filled(str, size, total + ['\0'], before)
    ensures 1 <= size <= |before| && |total| + 1 < size && str[..] == Bounded(total, size, before)
  {
  }

  lemma Finished(str: array<char>, size: nat, total: string, before: string)
    requires Truncated(str, size, total + ['\0'], before)
    ensures 1 <= size <= |before| && |total| + 1 >= size && str[..] == Bounded(total, size, before)
  {
    assert (total + ['\0'])[..size - 1] == total[..size - 1];
  }

  /** What is still to come after `now`, the part already written. */
  ghost predicate Remaining(now: string, rest: Rendering, total: string) {
    rest.Rendered? && now + rest.text == total
  }

  lemma Emitted(now: string, piece: string, rest: Rendering, total: string)
    requires Remaining(now, Prepend(piece, rest), total)
    ensures Remaining(now + piece, rest, total)
  {
    assert now + (piece + rest.text) == (now + piece) + rest.text;
  }

  /** Running full early leaves what running full at the end would. */
  lemma FullEarly(str: array<char>, size: nat, now: string, rest: Rendering, total: string, before: string)
    requires Truncated(str, size, now, before) && Remaining(now, rest, total)
    ensures 1 <= size <= |before| && |total| + 1 >= size && str[..] == Bounded(total, size, before)
  {
    TruncatedMore(str, size, now, rest.text, before);
    TruncatedMore(str, size, total, ['\0'], before);
    Finished(str, size, total, before);
  }

  /** The buffer ends up with the first `size - 1` bytes of the unbounded output
      and a NUL, and nothing else changes. */
  method Vsnprintf(str: array<char>, size: nat, fmt: string, args: seq<Arg>) returns (r: nat)
    requires 1 <= size <= str.Length && '\0' !in fmt && Render(fmt, args).Rendered?
    modifies str
    ensures str[..] == Bounded(Render(fmt, args).text, size, old(str[..]))
    ensures r == if |Render(fmt, args).text| + 1 < size then |Render(fmt, args).text| else size
  {
    hide Filled, Truncated, Bounded, Piece;
    ghost var before, total, now := str[..], Render(fmt, args).text, [];
    var i, j, pos, width := 0, 0, 0, 0;
    var full := false;
    assert [] + total == total;
    Untouched(str, size);
    while i < |fmt|
      invariant i <= |fmt| && Wrote(str, size, pos, false, now, before)
      invariant Remaining(now, Text(fmt, i, width, args, j), total)
    {
      if fmt[i] == '%' {
        i, width := ScanWidth(fmt, i + 1, width, args, j);
        if fmt[i] == '%' {
          Emitted(now, "%", Text(fmt, i + 1, 0, args, j), total);
          pos, full := SetCh(str, size, pos, '%', now, before);
          now := now + "%";
          width := 0;
        } else if Consumes(fmt[i]) {
          Emitted(now, Piece(fmt[i], width, args[j]), Text(fmt, i + 1, 0, args, j + 1), total);
          pos, full := PrintPiece(str, size, pos, fmt[i], width, args[j], now, before);
          now := now + Piece(fmt[i], width, args[j]);
          width, j := 0, j + 1;
        } else {
          Emitted(now, ['%', fmt[i]], Text(fmt, i + 1, width, args, j), total);
          pos, full := SetCh(str, size, pos, '%', now, before);
          assert now + ['%', fmt[i]] == now + ['%'] + [fmt[i]];
          if full {
            TruncatedMore(str, size, now + ['%'], [fmt[i]], before);
          } else {
            pos, full := SetCh(str, size, pos, fmt[i], now + ['%'], before);
          }
          now := now + ['%', fmt[i]];
        }
      } else {
        Emitted(now, [fmt[i]], Text(fmt, i + 1, width, args, j), total);
        pos, full := SetCh(str, size, pos, fmt[i], now, before);
        now := now + [fmt[i]];
      }
      i := i + 1;
      if full {
        FullEarly(str, size, now, Text(fmt, i, width, args, j), total, before);
        return size;
      }
    }
    assert now == total;
    pos, full := SetCh(str, size, pos, '\0', now, before);
    if full {
      Finished(str, size, total, before);
      return size;
    }
    FinishedShort(str, size, total, before);
    return pos - 1;
  }
}
