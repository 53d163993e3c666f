/**
 Integer printing (format_integer, lib/stdio.c) and reading (atoi, lib/stdlib.c). Output is the string of characters
 passed to the output function; a C string is its characters before the terminator.
 */
module Stdio {
  import opened Basics

  const BUF_SIZE: int := 64

  datatype Base = Base(base: int, digits: string, x: char, group: int)   // `x` is '\0' for none

  const BASE_D := Base(10, "0123456789", '\0', 3)
  const BASE_O := Base(8, "01234567", '\0', 3)
  const BASE_X := Base(16, "0123456789abcdef", 'x', 4)
  const BASE_UPPER_X := Base(16, "0123456789ABCDEF", 'X', 4)

  datatype Conversion = Conversion(minus: bool, plus: bool, space: bool, pound: bool, zero: bool, group: bool,
                                   width: int, precision: int)

  ghost predicate IsBase(b: Base) {
    8 <= b.base == |b.digits| && b.group >= 3
  }

  lemma {:induction false} Bases()
    ensures IsBase(BASE_D) && IsBase(BASE_O) && IsBase(BASE_X) && IsBase(BASE_UPPER_X)
  {
  }

  // ---------------------------------------------------------------- what format_integer prints

  /** The digits of a value, last digit first, with a comma before each full group after the first `n` digits. */
  function Digits(value: nat, b: Base, grouped: bool, n: nat): string
    requires IsBase(b)
  {
    if value == 0 then ""
    else
      (if grouped && n > 0 && n % b.group == 0 then "," else "") + [b.digits[value % b.base]]
      + Digits(value / b.base, b, grouped, n + 1)
  }

  function Zeros(n: int): string { if n <= 0 then "" else Zeros(n - 1) + "0" }

  function Spaces(n: int): string { if n <= 0 then "" else Spaces(n - 1) + " " }

  /** How many zeros bring a number of `len` characters up to the precision, in a buffer with room for 63. */
  function Padding(len: int, precision: int): int {
    var want := if precision < 0 then 1 else precision;
    if want < BUF_SIZE - 1 then want - len else BUF_SIZE - 1 - len
  }

  /** The buffer before output, last character first. */
  function Body(value: nat, b: Base, c: Conversion): string
    requires IsBase(b)
  {
    var d := Digits(value, b, c.group, 0);
    var p := d + Zeros(Padding(|d|, c.precision));
    if c.pound && b.base == 8 && (p == "" || p[|p| - 1] != '0') then p + "0" else p
  }

  function Reverse(s: string): (r: string)
    ensures |r| == |s|
  {
    if s == "" then "" else Reverse(s[1..]) + [s[0]]
  }

  function Sign(isSigned: bool, negative: bool, c: Conversion): string {
    if !isSigned then ""
    else if c.plus then (if negative then "-" else "+")
    else if c.space then (if negative then "-" else " ")
    else if negative then "-"
    else ""
  }

  function HexPrefix(value: nat, b: Base, c: Conversion): string {
    if c.pound && value != 0 && b.x != '\0' then ['0', b.x] else ""
  }

  function Printed(value: nat, isSigned: bool, negative: bool, b: Base, c: Conversion): string
    requires IsBase(b)
  {
    var body := Body(value, b, c);
    var sign := Sign(isSigned, negative, c);
    var x := HexPrefix(value, b, c);
    Field(sign, x, body, c.width - |body| - |x| - |sign|, c)
  }

  // ---------------------------------------------------------------- format_integer

  lemma {:induction false} Pow8At22()
    ensures B64 <= Pow8(22)
  {
    assert Pow8(2) == 64;
    assert Pow8(4) == 4096;
    assert Pow8(6) == 0x4_0000;
    assert Pow8(8) == 0x100_0000;
    assert Pow8(10) == 0x4000_0000;
    assert Pow8(12) == 0x10_0000_0000;
    assert Pow8(14) == 0x400_0000_0000;
    assert Pow8(16) == 0x1_0000_0000_0000;
    assert Pow8(18) == 0x40_0000_0000_0000;
    assert Pow8(20) == 0x1000_0000_0000_0000;
  }

  lemma {:induction false} DivShrinks(value: nat, b: Base, n: nat)
    requires IsBase(b) && value < Pow8(n) && value > 0
    ensures n > 0 && Quotient(value, b) < Pow8(n - 1) && Quotient(value, b) < value
  {
    DivLe(value, b.base);
  }

  lemma {:induction false} DivLe(value: nat, base: int)
    requires base >= 8
    ensures 0 <= value / base <= value / 8
  {
    var q := value / base;
    assert q * base <= value;
    assert q * 8 <= q * base;
  }

  /** *cp++ = ch. */
  method Append(buf: array<char>, cp: int, ch: char) returns (next: int)
    requires 0 <= cp < buf.Length
    modifies buf
    ensures next == cp + 1 && buf[..next] == old(buf[..cp]) + [ch]
  {
    buf[cp] := ch;
    next := cp + 1;
  }

  function Comma(b: Base, grouped: bool, n: nat): string
    requires IsBase(b)
  {
    if grouped && n > 0 && n % b.group == 0 then "," else ""
  }

  lemma {:induction false} CommaIs(b: Base, grouped: bool, n: nat, done: string)
    requires IsBase(b)
    ensures done + Comma(b, grouped, n) == if Comma(b, grouped, n) != "" then done + [','] else done
  {
  }

  /** `done` and the digits of `v` still to come make up the digits of `value`. */
  ghost predicate Emitted(done: string, v: nat, n: nat, value: nat, b: Base, grouped: bool) {
    IsBase(b) && done + Digits(v, b, grouped, n) == Digits(value, b, grouped, 0)
  }

  function Quotient(v: nat, b: Base): nat
    requires IsBase(b)
  {
    v / b.base
  }

  function Digit(v: nat, b: Base): char
    requires IsBase(b)
  {
    b.digits[v % b.base]
  }

  lemma {:induction false} EmitOne(done: string, v: nat, n: nat, value: nat, b: Base, grouped: bool)
    requires Emitted(done, v, n, value, b, grouped) && v > 0
    ensures Emitted(done + Comma(b, grouped, n) + [Digit(v, b)], Quotient(v, b), n + 1, value, b, grouped)
  {
    var rest := Digits(v / b.base, b, grouped, n + 1);
    assert Digits(v, b, grouped, n) == Comma(b, grouped, n) + [Digit(v, b)] + rest;
    assert done + (Comma(b, grouped, n) + [Digit(v, b)] + rest) == done + Comma(b, grouped, n) + [Digit(v, b)] + rest;
  }

  lemma {:induction false} EmitEnds(done: string, n: nat, value: nat, b: Base, grouped: bool)
    requires IsBase(b)
    ensures Emitted("", value, 0, value, b, grouped)
    ensures Emitted(done, 0, n, value, b, grouped) ==> done == Digits(value, b, grouped, 0)
  {
    assert "" + Digits(value, b, grouped, 0) == Digits(value, b, grouped, 0);
    assert done + "" == done;
  }

  /** One digit, after a comma if a group is full. */
  method PutOne(buf: array<char>, from: int, v: nat, n: nat, b: Base, grouped: bool) returns (cp: int)
    requires IsBase(b) && 0 <= from && from + 2 <= buf.Length
    modifies buf
    ensures from < cp <= from + 2 && buf[..cp] == old(buf[..from]) + Comma(b, grouped, n) + [Digit(v, b)]
  {
    hide Comma, Digit;
    cp := from;
    CommaIs(b, grouped, n, buf[..cp]);
    if Comma(b, grouped, n) != "" {
      cp := Append(buf, cp, ',');
    }
    cp := Append(buf, cp, Digit(v, b));
  }

  /** The digits of the value go to the buffer; each index stays well below its size. */
  method PutDigits(value: nat, b: Base, grouped: bool, buf: array<char>) returns (cp: int)
    requires IsBase(b) && value < B64 && buf.Length == BUF_SIZE
    modifies buf
    ensures 0 <= cp <= 44 && buf[..cp] == Digits(value, b, grouped, 0)
  {
    hide Pow8, Digits, Emitted, Digit, Quotient, Comma;
    var v, n := value, 0;
    cp := 0;
    Pow8At22();
    EmitEnds("", 0, value, b, grouped);
    assert buf[..0] == "";
    while v > 0
      invariant 0 <= n <= 22 && 0 <= cp <= 2 * n && v >= 0 && v < Pow8(22 - n)
      invariant Emitted(buf[..cp], v, n, value, b, grouped)
      decreases v
    {
      DivShrinks(v, b, 22 - n);
      EmitOne(buf[..cp], v, n, value, b, grouped);
      cp := PutOne(buf, cp, v, n, b, grouped);
      v := Quotient(v, b);
      n := n + 1;
    }
    EmitEnds(buf[..cp], n, value, b, grouped);
  }

  /** Zeros to match the precision, and the leading zero of the # flag in octal. */
  method PutZeros(b: Base, c: Conversion, buf: array<char>, from: int) returns (cp: int)
    requires buf.Length == BUF_SIZE && 0 <= from <= 44
    modifies buf
    ensures from <= cp <= BUF_SIZE
    ensures var p := old(buf[..from]) + Zeros(Padding(from, c.precision));
      buf[..cp] == if c.pound && b.base == 8 && (p == "" || p[|p| - 1] != '0') then p + "0" else p
  {
    var precision := if c.precision < 0 then 1 else c.precision;
    cp := from;
    while cp < precision && cp < BUF_SIZE - 1
      invariant from <= cp <= BUF_SIZE - 1 && (cp > from ==> cp <= precision)
      invariant buf[..cp] == old(buf[..from]) + Zeros(cp - from)
    {
      ghost var now := buf[..cp];
      buf[cp] := '0';
      cp := cp + 1;
      assert buf[..cp] == now + "0";
      assert now + "0" == old(buf[..from]) + (Zeros(cp - 1 - from) + "0");
    }
    PaddingIs(from, c.precision, cp);
    if c.pound && b.base == 8 && (cp == 0 || buf[cp - 1] != '0') {
      ghost var now := buf[..cp];
      buf[cp] := '0';
      cp := cp + 1;
      assert buf[..cp] == now + "0";
    }
  }

  lemma {:induction false} PaddingIs(from: int, precision: int, cp: int)
    requires 0 <= from <= 44 && from <= cp <= BUF_SIZE - 1
    requires var want := if precision < 0 then 1 else precision;
      !(cp < want && cp < BUF_SIZE - 1) && (cp > from ==> cp <= want)
    ensures Zeros(cp - from) == Zeros(Padding(from, precision))
  {
  }

  /** output_dup. */
  method OutputDup(ch: char, cnt: int, out: string) returns (r: string)
    requires ch == ' ' || ch == '0'
    ensures r == out + if ch == ' ' then Spaces(cnt) else Zeros(cnt)
  {
    r := out;
    var i := 0;
    while i < cnt
      invariant 0 <= i && (i > 0 ==> i <= cnt) && r == out + if ch == ' ' then Spaces(i) else Zeros(i)
    {
      r := r + [ch];
      i := i + 1;
    }
    if cnt < 0 { assert i == 0; }
  }

  /** while (cp > buf) output (*--cp). */
  method OutputBody(buf: array<char>, len: int, out: string) returns (r: string)
    requires 0 <= len <= buf.Length
    ensures r == out + Reverse(buf[..len])
  {
    ghost var body := buf[..len];
    r := out;
    var cp := len;
    assert body[..len] == body;
    while cp > 0
      invariant 0 <= cp <= len && r + Reverse(body[..cp]) == out + Reverse(body)
    {
      cp := cp - 1;
      ReverseLast(body[..cp], body[cp]);
      assert body[..cp + 1] == body[..cp] + [body[cp]];
      r := r + [buf[cp]];
    }
  }

  /** The field laid out: padding, sign, prefix, number, padding. */
  function Field(sign: string, x: string, body: string, pad: int, c: Conversion): string {
    (if !c.minus && !c.zero then Spaces(pad) else "") + sign + x + (if c.zero then Zeros(pad) else "")
    + Reverse(body) + (if c.minus then Spaces(pad) else "")
  }

  method Output(sign: string, x: string, buf: array<char>, cp: int, pad: int, c: Conversion) returns (out: string)
    requires 0 <= cp <= buf.Length
    ensures out == Field(sign, x, buf[..cp], pad, c)
  {
    hide Reverse, Spaces, Zeros;
    out := "";
    if !c.minus && !c.zero {
      out := OutputDup(' ', pad, out);
    }
    out := out + sign + x;
    if c.zero {
      out := OutputDup('0', pad, out);
    }
    out := OutputBody(buf, cp, out);
    if c.minus {
      out := OutputDup(' ', pad, out);
    }
  }

  method FormatInteger(value: nat, isSigned: bool, negative: bool, b: Base, c: Conversion) returns (out: string)
    requires IsBase(b) && value < B64
    ensures out == Printed(value, isSigned, negative, b, c)
  {
    hide Digits, Zeros, Field, Sign, HexPrefix;
    var sign := Sign(isSigned, negative, c);
    var x := HexPrefix(value, b, c);
    var buf := new char[BUF_SIZE];
    var digits := PutDigits(value, b, c.group, buf);
    var cp := PutZeros(b, c, buf, digits);
    var pad := c.width - cp - |x| - |sign|;
    ghost var room := pad;
    if pad < 0 {
      pad := 0;
      NoPad(sign, x, buf[..cp], room, c);
    }
    out := Output(sign, x, buf, cp, pad, c);
  }

  lemma {:induction false} NoPad(sign: string, x: string, body: string, n: int, c: Conversion)
    requires n < 0
    ensures Field(sign, x, body, n, c) == Field(sign, x, body, 0, c)
  {
  }

  lemma {:induction false} ReverseLast(s: string, ch: char)
    ensures Reverse(s + [ch]) == [ch] + Reverse(s)
  {
    if s != "" {
      ReverseLast(s[1..], ch);
      assert (s + [ch])[1..] == s[1..] + [ch];
    }
  }

  // ---------------------------------------------------------------- what the field means

  /** The number that figures stand for in a base, last figure first. */
  function Number(figures: seq<nat>, base: nat): nat {
    if figures == [] then 0 else figures[0] + base * Number(figures[1..], base)
  }

  function Figures(value: nat, base: nat): seq<nat>
    requires base >= 2
  {
    if value == 0 then [] else [value % base] + Figures(value / base, base)
  }

  /** The figures are below the base, do not start with a zero, and stand for the value. */
  lemma {:induction false} FiguresMean(value: nat, base: nat)
    requires base >= 2
    ensures var f := Figures(value, base);
      && Number(f, base) == value && (forall i | 0 <= i < |f| :: f[i] < base)
      && (f != [] ==> f[|f| - 1] != 0)
    decreases value
  {
    if value > 0 {
      FiguresStep(value, base);
      hide Figures, Number;
      var q := value / base;
      NumberStep(value % base, Figures(q, base), base);
      NoFigures(q, base);
      FiguresMean(q, base);
    } else {
      assert Figures(value, base) == [];
    }
  }

  lemma {:induction false} FiguresStep(value: nat, base: nat)
    requires base >= 2 && value > 0
    ensures var q, r := value / base, value % base;
      q < value && value == r + base * q && (q == 0 ==> r != 0) && Figures(value, base) == [r] + Figures(q, base)
  {
    var q, r := value / base, value % base;
    assert value == r + base * q;
    assert q >= 1 ==> base * q >= 2 * q;
  }

  lemma {:induction false} NumberStep(d: nat, rest: seq<nat>, base: nat)
    ensures Number([d] + rest, base) == d + base * Number(rest, base)
  {
    assert ([d] + rest)[1..] == rest;
  }

  /** Number of commas among the places of `n` figures that follow `k` others. */
  function Commas(n: nat, k: nat, b: Base, grouped: bool): nat
    requires IsBase(b)
  {
    if n == 0 then 0 else |Comma(b, grouped, k)| + Commas(n - 1, k + 1, b, grouped)
  }

  lemma {:induction false} DigitsStep(value: nat, b: Base, grouped: bool, k: nat)
    requires IsBase(b) && value > 0
    ensures var q := Quotient(value, b);
      && q < value && |Figures(value, b.base)| == 1 + |Figures(q, b.base)|
      && Digits(value, b, grouped, k) == Comma(b, grouped, k) + [Digit(value, b)] + Digits(q, b, grouped, k + 1)
  {
    DivLe(value, b.base);
  }

  lemma {:induction false} FigureStep(value: nat, b: Base, i: nat)
    requires IsBase(b) && i < |Figures(value, b.base)| && Figures(value, b.base)[i] < b.base
    ensures value > 0
    ensures i == 0 ==> b.digits[Figures(value, b.base)[i]] == Digit(value, b)
    ensures i > 0 ==>
      var f := Figures(Quotient(value, b), b.base); i - 1 < |f| && Figures(value, b.base)[i] == f[i - 1]
  {
    NoFigures(value, b.base);
    FiguresStep(value, b.base);
    hide Figures;
  }

  ghost predicate StandsAt(s: string, at: nat, ch: char, comma: bool) {
    at < |s| && s[at] == ch && (comma ==> at > 0 && s[at - 1] == ',')
  }

  /** Figure `i` of those still to come stands after the `i` figures and the commas before it. */
  lemma {:induction false} FigureAt(value: nat, b: Base, grouped: bool, k: nat, i: nat)
    requires IsBase(b) && i < |Figures(value, b.base)| && Figures(value, b.base)[i] < b.base
    ensures StandsAt(Digits(value, b, grouped, k), i + Commas(i + 1, k, b, grouped),
              b.digits[Figures(value, b.base)[i]], Comma(b, grouped, k + i) != "")
    decreases i
  {
    hide Digits, Figures, Digit, Quotient, Comma, Commas, StandsAt;
    FigureStep(value, b, i);
    DigitsStep(value, b, grouped, k);
    CommaOne(b, grouped, k);
    var q := Quotient(value, b);
    var rest := Digits(q, b, grouped, k + 1);
    CommasStep(i + 1, k, b, grouped);
    if i == 0 {
      StandsFirst(Comma(b, grouped, k), Digit(value, b), rest);
    } else {
      FigureAt(q, b, grouped, k + 1, i - 1);
      StandsAfter(Comma(b, grouped, k), Digit(value, b), rest, i - 1 + Commas(i, k + 1, b, grouped),
        b.digits[Figures(value, b.base)[i]], Comma(b, grouped, k + i) != "");
    }
  }

  lemma {:induction false} CommasStep(n: nat, k: nat, b: Base, grouped: bool)
    requires IsBase(b) && n > 0
    ensures Commas(n, k, b, grouped) == |Comma(b, grouped, k)| + Commas(n - 1, k + 1, b, grouped)
    ensures Commas(0, k + 1, b, grouped) == 0
  {
  }

  lemma {:induction false} StandsFirst(comma: string, d: char, rest: string)
    requires comma == "" || comma == [',']
    ensures StandsAt(comma + [d] + rest, |comma|, d, comma != "")
  {
  }

  lemma {:induction false} StandsAfter(comma: string, d: char, rest: string, i: nat, ch: char, after: bool)
    requires StandsAt(rest, i, ch, after)
    ensures StandsAt(comma + [d] + rest, |comma| + 1 + i, ch, after)
  {
  }

  lemma {:induction false} NoFigures(value: nat, base: nat)
    requires base >= 2
    ensures Figures(value, base) == [] <==> value == 0
  {
  }

  lemma {:induction false} CommaOne(b: Base, grouped: bool, k: nat)
    requires IsBase(b)
    ensures Comma(b, grouped, k) == "" || Comma(b, grouped, k) == [',']
  {
  }

  lemma {:induction false} DigitsLength(value: nat, b: Base, grouped: bool, k: nat)
    requires IsBase(b)
    ensures var n := |Figures(value, b.base)|;
      |Digits(value, b, grouped, k)| == n + Commas(n, k, b, grouped)
    decreases value
  {
    if value > 0 {
      hide Digits, Figures, Quotient, Comma;
      DigitsStep(value, b, grouped, k);
      DigitsLength(Quotient(value, b), b, grouped, k + 1);
    }
  }

  /** One comma for each full group: `m / group` of them before figure `m`. */
  lemma {:induction false} CommasFrom(n: nat, k: nat, b: Base)
    requires IsBase(b) && n > 0
    ensures Commas(n, k, b, true) == (k + n - 1) / b.group - (if k == 0 then 0 else (k - 1) / b.group)
    ensures Commas(n, k, b, false) == 0
    decreases n
  {
    NextGroup(k, b.group);
    if n > 1 { CommasFrom(n - 1, k + 1, b); }
  }

  lemma {:induction false} NextGroup(k: nat, g: int)
    requires g > 0
    ensures k > 0 ==> k / g == (k - 1) / g + (if k % g == 0 then 1 else 0)
    ensures k == 0 ==> k / g == 0
  {
    if k > 0 {
      var q, r := k / g, k % g;
      if r == 0 {
        Quotients(k - 1, g, q - 1, g - 1);
      } else {
        Quotients(k - 1, g, q, r - 1);
      }
    }
  }

  lemma {:induction false} Quotients(x: int, g: int, q: int, r: int)
    requires g > 0 && 0 <= r < g && x == q * g + r
    ensures x / g == q
  {
    var d := x / g - q;
    assert x == x / g * g + x % g;
    assert d * g == r - x % g;
    assert (d >= 1 ==> d * g >= g) && (d <= -1 ==> d * g <= -g);
  }

  /** The digits of a value in any base: figure `i`, counted from the last, is its digit, and with grouping a comma
      stands wherever a whole number of groups is to the right. */
  lemma {:induction false} DigitsMean(value: nat, b: Base, grouped: bool)
    requires IsBase(b)
    ensures var f := Figures(value, b.base);
      var s := Digits(value, b, grouped, 0);
      && Number(f, b.base) == value && (forall i | 0 <= i < |f| :: f[i] < b.base) && (f != [] ==> f[|f| - 1] != 0)
      && |s| == |f| + (if grouped && f != [] then (|f| - 1) / b.group else 0)
      && (forall i | 0 <= i < |f| :: FigurePlaced(s, f, b, grouped, i))
  {
    hide Digits, Figures, Number, Commas, FigurePlaced;
    var f := Figures(value, b.base);
    FiguresMean(value, b.base);
    DigitsLength(value, b, grouped, 0);
    if f != [] { CommasFrom(|f|, 0, b); } else { NoCommas(b, grouped); }
    forall i: nat | i < |f| ensures FigurePlaced(Digits(value, b, grouped, 0), f, b, grouped, i) {
      IsPlaced(value, b, grouped, i);
    }
  }

  lemma {:induction false} NoCommas(b: Base, grouped: bool)
    requires IsBase(b)
    ensures Commas(0, 0, b, grouped) == 0
  {
  }

  lemma {:induction false} IsPlaced(value: nat, b: Base, grouped: bool, i: nat)
    requires IsBase(b) && i < |Figures(value, b.base)| && Figures(value, b.base)[i] < b.base
    ensures FigurePlaced(Digits(value, b, grouped, 0), Figures(value, b.base), b, grouped, i)
  {
    hide Digits, Figures, Commas;
    FigureAt(value, b, grouped, 0, i);
    CommasFrom(i + 1, 0, b);
  }

  ghost predicate FigurePlaced(s: string, f: seq<nat>, b: Base, grouped: bool, i: nat)
    requires IsBase(b) && i < |f| && f[i] < b.base
  {
    var at := i + if grouped then i / b.group else 0;
    && at < |s| && s[at] == b.digits[f[i]]
    && (grouped && i > 0 && i % b.group == 0 ==> at > 0 && s[at - 1] == ',')
  }

  lemma {:induction false} ZerosLength(n: int)
    ensures |Zeros(n)| == (if n < 0 then 0 else n) && |Spaces(n)| == |Zeros(n)|
    ensures forall i | 0 <= i < |Zeros(n)| :: Zeros(n)[i] == '0' && Spaces(n)[i] == ' '
  {
    if n > 0 { ZerosLength(n - 1); }
  }

  /** Zeros in front bring the number to the precision, as far as the buffer has room; a precision that is not given
      counts as 1. The # flag puts one more in front of an octal number that does not start with one. */
  lemma {:induction false} PrecisionMet(value: nat, b: Base, c: Conversion)
    requires IsBase(b)
    ensures var d := Digits(value, b, c.group, 0);
      var want := if c.precision < 0 then 1 else c.precision;
      var body := Body(value, b, c);
      var n := if |d| < want && |d| < 63 then (if want < 63 then want else 63) else |d|;
      && d <= body && (forall i | |d| <= i < |body| :: body[i] == '0')
      && n <= |body| <= n + 1
      && (|body| == n + 1 <==> c.pound && b.base == 8 && (n == 0 || body[n - 1] != '0'))
      && (c.pound && b.base == 8 ==> body != "" && body[|body| - 1] == '0')
  {
    var d := Digits(value, b, c.group, 0);
    hide Digits;
    ZerosLength(Padding(|d|, c.precision));
  }

  /** The characters that are not padding: sign, prefix, number. */
  function Bare(value: nat, isSigned: bool, negative: bool, b: Base, c: Conversion): string
    requires IsBase(b)
  {
    Sign(isSigned, negative, c) + HexPrefix(value, b, c) + Reverse(Body(value, b, c))
  }

  /** Spaces after the bare characters, before them, or zeros between their first `front` and the rest. */
  ghost predicate Justified(out: string, bare: string, front: nat, c: Conversion) {
    && front <= |bare| <= |out|
    && (c.minus && !c.zero ==> bare <= out && forall i | |bare| <= i < |out| :: out[i] == ' ')
    && (!c.minus && !c.zero ==> out[|out| - |bare|..] == bare && forall i | 0 <= i < |out| - |bare| :: out[i] == ' ')
    && var gap := |out| - |bare|;
       (c.zero && !c.minus ==> out[..front] == bare[..front] && out[front + gap..] == bare[front..]
                               && forall i | front <= i < front + gap :: out[i] == '0')
  }

  lemma {:induction false} FieldShape(sign: string, x: string, body: string, pad: int, c: Conversion)
    ensures var out := Field(sign, x, body, pad, c);
      var bare, w := sign + x + Reverse(body), if pad < 0 then 0 else pad;
      && |out| == |bare| + (if c.minus && c.zero then 2 * w else w) && Justified(out, bare, |sign| + |x|, c)
  {
    ZerosLength(pad);
    hide Zeros, Spaces, Reverse;
  }

  /** The field is as wide as the width asks, or as the number if that is wider, with the padding on the side and of
      the kind the flags ask for. It is wider only when both the - and the 0 flag are set, which the conversion
      parser does not let happen. */
  lemma {:induction false} WidthMet(value: nat, isSigned: bool, negative: bool, b: Base, c: Conversion)
    requires IsBase(b)
    ensures var out := Printed(value, isSigned, negative, b, c);
      var bare := Bare(value, isSigned, negative, b, c);
      && |bare| <= |out| && Justified(out, bare, |bare| - |Body(value, b, c)|, c)
      && (|out| == (if c.width < |bare| then |bare| else c.width) <==> !(c.minus && c.zero) || c.width <= |bare|)
  {
    hide Body, Field, Sign, HexPrefix, Reverse, Justified;
    var body := Body(value, b, c);
    var sign, x := Sign(isSigned, negative, c), HexPrefix(value, b, c);
    FieldShape(sign, x, body, c.width - |body| - |x| - |sign|, c);
  }

  /** A minus just for a negative signed number; a plus or a space in its place only where a flag asks for one; 0x or
      0X only for a value other than 0 in hexadecimal under the # flag. */
  lemma {:induction false} FrontIs(value: nat, isSigned: bool, negative: bool, b: Base, c: Conversion)
    ensures var sign, x := Sign(isSigned, negative, c), HexPrefix(value, b, c);
      && (sign == "-" <==> isSigned && negative)
      && (sign == "+" <==> isSigned && !negative && c.plus)
      && (sign == " " <==> isSigned && !negative && !c.plus && c.space)
      && (sign in {"-", "+", " ", ""})
      && (x == "" <==> value == 0 || !c.pound || b.x == '\0') && (x == "" || x == ['0', b.x])
  {
    var sign := Sign(isSigned, negative, c);
    assert sign in {"-", "+", " ", ""};
    assert "-"[0] != "+"[0] && "-"[0] != " "[0] && "+"[0] != " "[0];
  }

  // ---------------------------------------------------------------- atoi

  predicate IsSpace(c: char) {
    c == ' ' || c as int == 12 || c == '\n' || c == '\r' || c == '\t' || c as int == 11
  }

  predicate IsDigit(c: char) {
    '0' <= c <= '9'
  }

  /** A 32-bit int result. */
  function Wrap(x: int): int {
    (x + B31) % B32 - B31
  }

  function SkipSpaces(s: string): string {
    if s != "" && IsSpace(s[0]) then SkipSpaces(s[1..]) else s
  }

  /** The value after the digits `s` begins with, counted down from `value`. */
  function Count(s: string, value: int): int {
    if s != "" && IsDigit(s[0]) then Count(s[1..], Wrap(Wrap(value * 10) - (s[0] as int - '0' as int))) else value
  }

  function Atoi(s: string): int {
    var t := SkipSpaces(s);
    if t != "" && t[0] == '-' then Count(t[1..], 0)
    else if t != "" && t[0] == '+' then Wrap(-Count(t[1..], 0))
    else Wrap(-Count(t, 0))
  }

  method SkipWhite(s: string) returns (i: int)
    ensures 0 <= i <= |s| && s[i..] == SkipSpaces(s)
  {
    i := 0;
    while i < |s| && IsSpace(s[i])
      invariant 0 <= i <= |s| && SkipSpaces(s[i..]) == SkipSpaces(s)
    {
      i := i + 1;
    }
  }

  method ReadDigits(s: string, from: int) returns (value: int)
    requires 0 <= from <= |s|
    ensures value == Count(s[from..], 0)
  {
    hide Wrap;
    var i := from;
    value := 0;
    while i < |s| && IsDigit(s[i])
      invariant 0 <= i <= |s| && Count(s[i..], value) == Count(s[from..], 0)
    {
      value := Wrap(Wrap(value * 10) - (s[i] as int - '0' as int));
      assert s[i..][1..] == s[i + 1..];
      i := i + 1;
    }
  }

  /** atoi. */
  method ParseInt(s: string) returns (value: int)
    ensures value == Atoi(s)
  {
    hide Wrap, Count, SkipSpaces;
    var i := SkipWhite(s);
    ghost var t := s[i..];
    assert i < |s| ==> t[1..] == s[i + 1..];
    var negative := false;
    if i < |s| && s[i] == '+' {
      i := i + 1;
    } else if i < |s| && s[i] == '-' {
      negative := true;
      i := i + 1;
    }
    value := ReadDigits(s, i);
    if !negative {
      value := Wrap(-value);
    }
  }

  // ---------------------------------------------------------------- what atoi returns

  /** The number that decimal digits stand for, however many there are. */
  function Decimal(d: string): int {
    if d == "" then 0 else 10 * Decimal(d[..|d| - 1]) + (d[|d| - 1] as int - '0' as int)
  }

  /** What Count would be in unbounded arithmetic. */
  function Plain(s: string, value: int): int {
    if s != "" && IsDigit(s[0]) then Plain(s[1..], value * 10 - (s[0] as int - '0' as int)) else value
  }

  lemma {:induction false} WrapOnce(x: int, k: int)
    ensures Wrap(x + k * B32) == Wrap(x)
  {
    ModShift(x + B31, k);
  }

  lemma {:induction false} ModShift(x: int, k: int)
    ensures (x + k * B32) % B32 == x % B32
  {
    var q := x / B32;
    assert x + k * B32 == (q + k) * B32 + x % B32;
  }

  /** How far a value is from itself wrapped, in multiples of 2^32. */
  function Turns(x: int): int {
    -((x + B31) / B32)
  }

  lemma {:induction false} WrapTurns(x: int)
    ensures Wrap(x) == x + Turns(x) * B32
  {
  }

  lemma {:induction false} WrapStep(v: int, d: int)
    ensures Wrap(Wrap(Wrap(v) * 10) - d) == Wrap(v * 10 - d)
  {
    hide Wrap, Turns;
    var i := Turns(v);
    WrapTurns(v);
    var j := Turns(Wrap(v) * 10);
    WrapTurns(Wrap(v) * 10);
    assert Wrap(Wrap(v) * 10) - d == v * 10 - d + (10 * i + j) * B32;
    WrapOnce(v * 10 - d, 10 * i + j);
  }

  lemma {:induction false} CountWraps(s: string, v: int)
    ensures Count(s, Wrap(v)) == Wrap(Plain(s, v))
    decreases s
  {
    hide Wrap;
    if s != "" && IsDigit(s[0]) {
      var d := s[0] as int - '0' as int;
      WrapStep(v, d);
      CountWraps(s[1..], v * 10 - d);
    }
  }

  lemma {:induction false} PlainReads(d: string, rest: string)
    requires AllDigits(d)
    ensures Plain(d + rest, 0) == Plain(rest, -Decimal(d))
    decreases |d|
  {
    if d == "" {
      assert d + rest == rest;
    } else {
      var n := |d| - 1;
      var more := [d[n]] + rest;
      assert d + rest == d[..n] + more && more[1..] == rest;
      PlainReads(d[..n], more);
    }
  }

  ghost predicate AllSpace(s: string) {
    forall i | 0 <= i < |s| :: IsSpace(s[i])
  }

  /** The parts of a string as atoi sees them: white space, a sign or none, as many digits as there are, the rest. */
  ghost predicate Parts(white: string, sign: string, d: string, rest: string) {
    && AllSpace(white) && (sign == "" || sign == "+" || sign == "-") && AllDigits(d)
    && (rest != "" ==> !IsDigit(rest[0]))
    && (rest != "" && sign == "" && d == "" ==> !IsSpace(rest[0]) && rest[0] != '+' && rest[0] != '-')
  }

  lemma {:induction false} SkipWhole(white: string, rest: string)
    requires AllSpace(white) && (rest != "" ==> !IsSpace(rest[0]))
    ensures SkipSpaces(white + rest) == rest
    decreases white
  {
    if white == "" {
      assert white + rest == rest;
    } else {
      assert (white + rest)[1..] == white[1..] + rest;
      SkipWhole(white[1..], rest);
    }
  }

  lemma {:induction false} CountParts(d: string, rest: string)
    requires AllDigits(d) && (rest != "" ==> !IsDigit(rest[0]))
    ensures Count(d + rest, 0) == Wrap(-Decimal(d)) && Wrap(-Count(d + rest, 0)) == Wrap(Decimal(d))
  {
    PlainReads(d, rest);
    assert Plain(rest, -Decimal(d)) == -Decimal(d);
    assert Wrap(0) == 0;
    hide Wrap, Count, Plain, Decimal, Turns;
    CountWraps(d + rest, 0);
    var n := Decimal(d);
    WrapTurns(-n);
    assert -Wrap(-n) == n + (-Turns(-n)) * B32;
    WrapOnce(n, -Turns(-n));
  }

  /** atoi of any string: the number its digits stand for, with the sign, reduced to 32 bits. */
  lemma {:induction false} AtoiExact(white: string, sign: string, d: string, rest: string)
    requires Parts(white, sign, d, rest)
    ensures Atoi(white + (sign + (d + rest))) == Wrap(if sign == "-" then -Decimal(d) else Decimal(d))
  {
    var t := sign + (d + rest);
    TextStarts(sign, d, rest);
    hide Wrap, Count, Decimal, AllDigits, AllSpace, SkipSpaces;
    SkipWhole(white, t);
    CountParts(d, rest);
  }

  lemma {:induction false} TextStarts(sign: string, d: string, rest: string)
    requires Parts("", sign, d, rest)
    ensures var t := sign + (d + rest);
      && (t != "" ==> !IsSpace(t[0]))
      && (sign != "" ==> t != "" && t[0] == sign[0] && t[1..] == d + rest)
      && (sign == "" ==> t == d + rest && (t != "" ==> t[0] != '-' && t[0] != '+'))
  {
    var t := sign + (d + rest);
    if sign == "" {
      assert t == d + rest;
      if d != "" { assert t[0] == d[0] && IsDigit(d[0]); }
    } else {
      assert t[1..] == d + rest;
    }
  }

  lemma {:induction false} DigitPart(s: string) returns (d: string, rest: string)
    ensures AllDigits(d) && s == d + rest && (rest != "" ==> !IsDigit(rest[0]))
    decreases s
  {
    if s == "" || !IsDigit(s[0]) {
      d, rest := "", s;
    } else {
      d, rest := DigitPart(s[1..]);
      d := [s[0]] + d;
    }
  }

  lemma {:induction false} WhitePart(s: string) returns (white: string, rest: string)
    ensures AllSpace(white) && s == white + rest && (rest != "" ==> !IsSpace(rest[0]))
    decreases s
  {
    if s == "" || !IsSpace(s[0]) {
      white, rest := "", s;
    } else {
      white, rest := WhitePart(s[1..]);
      white := [s[0]] + white;
    }
  }

  /** Every string has such parts. */
  lemma {:induction false} AtoiParts(s: string) returns (white: string, sign: string, d: string, rest: string)
    ensures Parts(white, sign, d, rest) && s == white + (sign + (d + rest))
  {
    hide AllSpace, AllDigits, IsSpace, IsDigit;
    var t: string;
    white, t := WhitePart(s);
    if t != "" && (t[0] == '+' || t[0] == '-') {
      sign := [t[0]];
      d, rest := DigitPart(t[1..]);
      assert t == sign + (d + rest);
    } else {
      sign := "";
      d, rest := DigitPart(t);
      assert t == sign + (d + rest);
      assert d == "" ==> t == rest;
    }
  }

  // ---------------------------------------------------------------- round trip

  /** A decimal digit sequence, first digit first. */
  lemma {:induction false} CountDigits(n: int, k: nat, rest: string)
    requires 0 <= n <= B31
    ensures Count(Reverse(Digits(n, BASE_D, false, k)) + rest, 0) == Count(rest, -n)
    decreases n
  {
    if n == 0 {
      assert Reverse(Digits(0, BASE_D, false, k)) + rest == rest;
    } else {
      var more := Digits(n / 10, BASE_D, false, k + 1);
      var d := BASE_D.digits[n % 10];
      assert Digits(n, BASE_D, false, k) == [d] + more;
      assert ([d] + more)[1..] == more;
      assert Reverse(more) + [d] + rest == Reverse(more) + ([d] + rest);
      CountDigits(n / 10, k + 1, [d] + rest);
      CountOne(n, d, rest);
    }
  }

  lemma {:induction false} CountOne(n: int, d: char, rest: string)
    requires 0 <= n <= B31 && d == "0123456789"[n % 10]
    ensures Count([d] + rest, -(n / 10)) == Count(rest, -n)
  {
    assert d as int - '0' as int == n % 10;
    assert ([d] + rest)[1..] == rest;
    assert Wrap(-(n / 10) * 10) == -(n / 10) * 10;
    assert Wrap(-(n / 10) * 10 - n % 10) == -n;
  }

  lemma {:induction false} CountZeros(k: int, rest: string)
    ensures Count(Zeros(k) + rest, 0) == Count(rest, 0)
  {
    if k <= 0 {
      assert Zeros(k) + rest == rest;
    } else {
      assert Zeros(k) + rest == Zeros(k - 1) + ("0" + rest);
      CountZeros(k - 1, "0" + rest);
      CountOne(0, '0', rest);
    }
  }

  lemma {:induction false} SkipLeading(k: int, rest: string)
    ensures SkipSpaces(Spaces(k) + rest) == SkipSpaces(rest)
  {
    if k <= 0 {
      assert Spaces(k) + rest == rest;
    } else {
      assert Spaces(k) + rest == Spaces(k - 1) + (" " + rest);
      SkipLeading(k - 1, " " + rest);
      assert (" " + rest)[1..] == rest;
    }
  }

  lemma {:induction false} CountNone(k: int, value: int)
    ensures Count(Spaces(k), value) == value && SkipSpaces(Spaces(k)) == ""
  {
    if k > 0 {
      SpacesFront(k);
      SkipLeading(k, "");
      assert Spaces(k) + "" == Spaces(k);
    }
  }

  lemma {:induction false} SpacesFront(k: int)
    requires k > 0
    ensures Spaces(k) != "" && Spaces(k)[0] == ' '
  {
    if k > 1 { SpacesFront(k - 1); }
  }

  ghost predicate AllDigits(s: string) {
    forall i | 0 <= i < |s| :: IsDigit(s[i])
  }

  lemma {:induction false} ZerosAre(k: int)
    ensures AllDigits(Zeros(k)) && Reverse(Zeros(k)) == Zeros(k)
  {
    if k > 0 {
      ZerosAre(k - 1);
      ReverseLast(Zeros(k - 1), '0');
      ZeroFront(k - 1);
    }
  }

  lemma {:induction false} ZeroFront(k: int)
    ensures ['0'] + Zeros(k) == Zeros(k) + ['0']
  {
    if k > 0 {
      ZeroFront(k - 1);
      assert ['0'] + (Zeros(k - 1) + ['0']) == (['0'] + Zeros(k - 1)) + ['0'];
    }
  }

  lemma {:induction false} ReverseConcat(a: string, b: string)
    ensures Reverse(a + b) == Reverse(b) + Reverse(a)
  {
    if a == "" {
      assert a + b == b && Reverse(b) + "" == Reverse(b);
    } else {
      assert (a + b)[1..] == a[1..] + b;
      ReverseConcat(a[1..], b);
      assert Reverse(b) + Reverse(a[1..]) + [a[0]] == Reverse(b) + (Reverse(a[1..]) + [a[0]]);
    }
  }

  lemma {:induction false} DigitFirst(n: nat, k: nat) returns (d: char)
    requires n > 0
    ensures IsDigit(d) && Digits(n, BASE_D, false, k) == [d] + Digits(n / 10, BASE_D, false, k + 1)
  {
    d := BASE_D.digits[n % 10];
  }

  lemma {:induction false} ReverseFirst(d: char, s: string)
    ensures Reverse([d] + s) == Reverse(s) + [d]
  {
    assert ([d] + s)[1..] == s;
  }

  lemma {:induction false} DigitsAre(n: nat, k: nat)
    ensures AllDigits(Reverse(Digits(n, BASE_D, false, k))) && (n > 0 ==> Digits(n, BASE_D, false, k) != "")
    decreases n
  {
    if n > 0 {
      hide Digits, Reverse, IsDigit;
      var d := DigitFirst(n, k);
      ReverseFirst(d, Digits(n / 10, BASE_D, false, k + 1));
      DigitsAre(n / 10, k + 1);
    }
  }

  lemma {:induction false} BodyIs(n: nat, c: Conversion)
    requires !c.group
    ensures var num := Digits(n, BASE_D, false, 0);
      Reverse(Body(n, BASE_D, c)) == Zeros(Padding(|num|, c.precision)) + Reverse(num)
  {
    var num := Digits(n, BASE_D, false, 0);
    hide Digits, Zeros, Reverse;
    ReverseConcat(num, Zeros(Padding(|num|, c.precision)));
    ZerosAre(Padding(|num|, c.precision));
  }

  /** The number, as it is printed after sign and prefix: zeros and digits. */
  lemma {:induction false} NumberIs(n: int, c: Conversion, z: int)
    requires 0 <= n <= B31 && !c.group
    ensures var d := Zeros(z) + Reverse(Body(n, BASE_D, c)); AllDigits(d) && (d == "" ==> n == 0)
  {
    hide Digits, Zeros, Reverse, Body;
    var num := Digits(n, BASE_D, false, 0);
    BodyIs(n, c);
    ZerosAre(z);
    ZerosAre(Padding(|num|, c.precision));
    DigitsAre(n, 0);
  }

  lemma {:induction false} NumberReads(n: int, c: Conversion, z: int, rest: string)
    requires 0 <= n <= B31 && !c.group
    ensures Count(Zeros(z) + Reverse(Body(n, BASE_D, c)) + rest, 0) == Count(rest, -n)
  {
    hide Digits, Zeros, Reverse, Count, Body;
    var num := Digits(n, BASE_D, false, 0);
    var k := Padding(|num|, c.precision);
    BodyIs(n, c);
    assert Zeros(z) + (Zeros(k) + Reverse(num)) + rest == Zeros(z) + (Zeros(k) + (Reverse(num) + rest));
    CountZeros(z, Zeros(k) + (Reverse(num) + rest));
    CountZeros(k, Reverse(num) + rest);
    CountDigits(n, 0, rest);
  }

  /** Nothing in a number without a sign is skipped as space or taken for a sign. */
  lemma {:induction false} Unsigned(d: string, rest: string, k: int, n: int)
    requires AllDigits(d) && (d == "" ==> n == 0) && rest == Spaces(k) && Count(d + rest, 0) == -n
    ensures var u := SkipSpaces(d + rest); (u == "" || (u[0] != '-' && u[0] != '+')) && Count(u, 0) == -n
  {
    CountNone(k, 0);
    if d == "" {
      assert d + rest == rest;
    } else {
      assert IsDigit(d[0]) && (d + rest)[0] == d[0];
    }
  }

  /** Where the parts of the field are when there is no prefix. */
  lemma {:induction false} FieldIs(sign: string, body: string, pad: int, c: Conversion)
    ensures var lead := if !c.minus && !c.zero then pad else 0;
      var z, trail := if c.zero then pad else 0, if c.minus then pad else 0;
      Field(sign, "", body, pad, c) == Spaces(lead) + (sign + (Zeros(z) + Reverse(body) + Spaces(trail)))
  {
    assert Spaces(0) == "" && Zeros(0) == "";
    hide Spaces, Zeros, Reverse;
  }

  /** A signed number in spaces is read as itself. */
  lemma {:induction false} AtoiReads(sign: string, negative: bool, d: string, lead: int, trail: int, n: int)
    requires sign == "-" || (!negative && (sign == "+" || sign == " " || sign == ""))
    requires (sign == "-") == negative && AllDigits(d) && (d == "" ==> n == 0) && Count(d + Spaces(trail), 0) == -n
    requires if negative then 0 < n <= B31 else 0 <= n < B31
    ensures Atoi(Spaces(lead) + (sign + (d + Spaces(trail)))) == if negative then -n else n
  {
    hide Spaces, Count, SkipSpaces, AllDigits, Wrap;
    var u := d + Spaces(trail);
    Unsigned(d, Spaces(trail), trail, n);
    SkipLeading(lead, sign + u);
    SkipSign(sign, u);
    WrapIs(n);
  }

  lemma {:induction false} SkipSign(sign: string, u: string)
    requires sign == "-" || sign == "+" || sign == " " || sign == ""
    ensures sign == "-" || sign == "+" ==> SkipSpaces(sign + u) == sign + u && (sign + u)[1..] == u
    ensures sign == " " || sign == "" ==> SkipSpaces(sign + u) == SkipSpaces(u)
  {
    if sign == "" {
      assert sign + u == u;
    } else {
      assert (sign + u)[1..] == u;
    }
  }

  lemma {:induction false} WrapIs(n: int)
    ensures -B31 <= n < B31 ==> Wrap(n) == n
  {
  }

  /** atoi reads back what %d prints, for every int, whatever the flags (but for grouping), the width and the
      precision. */
  lemma {:induction false} RoundTrip(v: int, c: Conversion)
    requires -B31 <= v < B31 && !c.group
    ensures Atoi(Printed(if v < 0 then -v else v, true, v < 0, BASE_D, c)) == v
  {
    hide Digits, Body, Zeros, Spaces, Reverse, Count, Atoi, Field;
    var n := if v < 0 then -v else v;
    var body := Body(n, BASE_D, c);
    var sign := Sign(true, v < 0, c);
    assert HexPrefix(n, BASE_D, c) == "";
    var pad := c.width - |body| - |sign|;
    var trail := if c.minus then pad else 0;
    var z := if c.zero then pad else 0;
    NumberIs(n, c, z);
    NumberReads(n, c, z, Spaces(trail));
    CountNone(trail, -n);
    FieldIs(sign, body, pad, c);
    AtoiReads(sign, v < 0, Zeros(z) + Reverse(body), if !c.minus && !c.zero then pad else 0, trail, n);
  }
}
