/**
 64-bit division on a machine that only divides 64 bits by 32 (lib/arithmetic.c). Machine words are integers with
 their range written out; what does not fit wraps around explicitly. `None` is the divide error (#DE).
 */
module Arithmetic {
  import opened Basics
  import opened Words

  const B63: int := 0x8000_0000_0000_0000

  type U32 = x: int | 0 <= x < B32
  type U64 = x: int | 0 <= x < B64

  predicate IsS64(x: int) { -B63 <= x < B63 }
  predicate IsS32(x: int) { -B31 <= x < B31 }

  function Wrap64(x: int): U64 { x % B64 }
  function Signed64(x: int): int { if x % B64 < B63 then x % B64 else x % B64 - B64 }
  function Signed32(x: int): int { if x % B32 < B31 then x % B32 else x % B32 - B32 }

  // ---------------------------------------------------------------- leading zeros

  /** Number of leading zero bits of a nonzero 32-bit word: how often it can be doubled without overflow. */
  function LeadingZeros(x: U32): (n: nat)
    requires x > 0
    decreases B32 - x
  {
    if x >= B31 then 0 else 1 + LeadingZeros(2 * x)
  }

  lemma {:induction false} LeadingZerosNormalize(x: U32)
    requires x > 0
    ensures B31 <= x * Pow2(LeadingZeros(x)) < B32
    decreases B32 - x
  {
    if x < B31 {
      LeadingZerosNormalize(2 * x);
      Twice(x, Pow2(LeadingZeros(2 * x)));
    }
  }

  lemma {:induction false} Twice(a: int, b: int)
    ensures (2 * a) * b == a * (2 * b) == 2 * (a * b)
  {
  }

  lemma {:induction false} LeadingZerosBound(x: U32)
    requires x > 0
    ensures LeadingZeros(x) < 32
  {
    LeadingZerosNormalize(x);
    var n := LeadingZeros(x);
    MulMono(1, x, Pow2(n));
    Pow2Large(n);
  }

  lemma {:induction false} Pow2Large(k: nat)
    ensures k >= 32 ==> Pow2(k) >= B32
    decreases k
  {
    if k > 32 {
      Pow2Large(k - 1);
    } else if k == 32 {
      Pow2At31();
    }
  }

  lemma {:induction false} Pow2Sum(a: nat, b: nat)
    ensures Pow2(a + b) == Pow2(a) * Pow2(b)
    decreases a
  {
    if a > 0 {
      Pow2Sum(a - 1, b);
      Twice(Pow2(a - 1), Pow2(b));
    }
  }

  /** The shift operator on 32-bit words. */
  function Shl32(x: U32, k: nat): U32 {
    x * Pow2(k) % B32
  }

  lemma {:induction false} ShiftFits(x: U32, k: nat, p: int)
    requires x > 0 && p == Pow2(k) && x * p < B32
    ensures Shl32(x, k) == x * p && LeadingZeros(x) == k + LeadingZeros(Shl32(x, k))
  {
    Doubled(x, k);
  }

  /** nlz: the chain of tests in the source. */
  method Nlz(x0: U32) returns (n: nat)
    requires x0 > 0
    ensures n == LeadingZeros(x0)
  {
    hide LeadingZeros, Pow2, Shl32;
    Pow2At31();
    var x: U32 := x0;
    n := 0;
    if x <= 0x0000_FFFF { ShiftFits(x, 16, 0x1_0000); n := n + 16; x := Shl32(x, 16); }
    if x <= 0x00FF_FFFF { ShiftFits(x, 8, 0x100); n := n + 8; x := Shl32(x, 8); }
    if x <= 0x0FFF_FFFF { ShiftFits(x, 4, 16); n := n + 4; x := Shl32(x, 4); }
    if x <= 0x3FFF_FFFF { ShiftFits(x, 2, 4); n := n + 2; x := Shl32(x, 2); }
    if x <= 0x7FFF_FFFF { ShiftFits(x, 1, 2); n := n + 1; x := Shl32(x, 1); }
    NoLeadingZero(x);
  }

  lemma {:induction false} NoLeadingZero(x: U32)
    requires x >= B31
    ensures LeadingZeros(x) == 0
  {
  }

  /** `k` doublings that do not overflow take away `k` leading zeros. */
  lemma {:induction false} Doubled(x: U32, k: nat)
    requires x > 0 && x * Pow2(k) < B32
    ensures LeadingZeros(x) == k + LeadingZeros(x * Pow2(k))
    decreases k
  {
    if k > 0 {
      assert x * Pow2(k) == (2 * x) * Pow2(k - 1);
      MulMono(1, Pow2(k - 1), 2 * x);
      Doubled(2 * x, k - 1);
    }
  }

  // ---------------------------------------------------------------- division

  /** The DIVL instruction. */
  function Divl(n: int, d: int): Option<int> {
    if d == 0 || n / d >= B32 then None else Some(n / d)
  }

  /** udiv64 with a divisor of one word. */
  function UdivNarrow(n: int, d: int): Option<int>
  {
    var n1, n0 := n / B32, n % B32;
    if d == 0 then None else
      var q := Divl(Wrap64(B32 * (n1 % d) + n0), d);
      if q == None then None else Some(Wrap64(q.value + B32 * (n1 / d)))
  }

  /** The last line of udiv64: the estimate may be one too large. */
  function Correct(n: int, d: int, q: int): int {
    if Wrap64(n - Wrap64(q - 1) * d) < d then Wrap64(q - 1) else q
  }

  function Shr(x: int, k: nat): int {
    x / Pow2(k)
  }

  /** udiv64 with a divisor of two words, of which `s` leading bits are zero, and a dividend that is not smaller. */
  function UdivWide(n: int, d: int, s: nat): Option<int>
    requires s <= 31
  {
    var q0 := Divl(n / 2, Wrap64(d * Pow2(s)) / B32);
    if q0 == None then None else Some(Correct(n, d, Shr(q0.value, 31 - s)))
  }

  /** udiv64. */
  function Udiv64(n: U64, d: U64): Option<int> {
    if d / B32 == 0 then UdivNarrow(n, d)
    else if n < d then Some(0)
    else
      LeadingZerosBound(d / B32);
      UdivWide(n, d, LeadingZeros(d / B32))
  }

  lemma {:induction false} DivUnique(n: int, d: int, q: int)
    requires d > 0 && q * d <= n < (q + 1) * d
    ensures n / d == q
  {
    var r := n - q * d;
    assert n == q * d + r && 0 <= r < d;
    if n / d < q { MulMono(n / d + 1, q, d); }
    if n / d > q { MulMono(q + 1, n / d, d); }
  }

  lemma {:induction false} DivBounds(n: int, d: int)
    requires d > 0
    ensures (n / d) * d <= n < (n / d + 1) * d
  {
  }

  lemma {:induction false} DivDiv(n: int, a: int, b: int)
    requires n >= 0 && a > 0 && b > 0
    ensures a * b > 0 && (n / a) / b == n / (a * b)
  {
    var x := n / a;
    var q := x / b;
    DivBounds(n, a);
    DivBounds(x, b);
    assert q * (a * b) == (q * b) * a;
    MulMono(q * b, x, a);
    assert (q + 1) * (a * b) == ((q + 1) * b) * a;
    MulMono(x + 1, (q + 1) * b, a);
    assert a * b > 0;
    DivUnique(n, a * b, q);
  }

  lemma {:induction false} WrapFits(x: int)
    requires 0 <= x < B64
    ensures Wrap64(x) == x
  {
  }

  /** The one-word divisor: no trap, and the exact quotient. */
  lemma {:induction false} NarrowExact(n: U64, d: U32)
    requires 0 < d
    ensures UdivNarrow(n, d) == Some(n / d)
  {
    hide Wrap64;
    var n1, n0 := n / B32, n % B32;
    var h, m := n1 / d, n1 % d;
    NarrowParts(n1, n0, d, h, m);
    WrapFits(B32 * m + n0);
    WrapFits((B32 * m + n0) / d + B32 * h);
    assert n == n1 * B32 + n0;
  }

  lemma {:induction false} NarrowParts(n1: int, n0: int, d: int, h: int, m: int)
    requires 0 <= n1 < B32 && 0 <= n0 < B32 && 0 < d < B32 && n1 == h * d + m && 0 <= m < d && 0 <= h
    ensures 0 <= B32 * m + n0 < B32 * d < B64
    ensures 0 <= (B32 * m + n0) / d < B32
    ensures (n1 * B32 + n0) / d == (B32 * m + n0) / d + B32 * h < B64
  {
    var a := B32 * m + n0;
    var q := a / d;
    DivBounds(a, d);
    if q >= B32 { MulMono(B32, q, d); }
    if q < 0 { MulMono(q + 1, 0, d); }
    var t := q + B32 * h;
    assert t * d == q * d + h * d * B32;
    assert (t + 1) * d == t * d + d;
    assert n1 * B32 + n0 == h * d * B32 + a;
    DivUnique(n1 * B32 + n0, d, t);
    MulMono(1, d, t);
  }

  /** The divisor, shifted to the top, has a first word `v` with its highest bit set. */
  lemma {:induction false} Normalized(d: U64, s: nat)
    requires d >= B32 && s == LeadingZeros(d / B32)
    ensures 0 <= d * Pow2(s) < B64 && B31 <= (d * Pow2(s)) / B32 < B32
  {
    var d1, p := d / B32, Pow2(s);
    LeadingZerosNormalize(d1);
    LeadingZerosBound(d1);
    assert B31 <= d1 * p < B32;
    assert d1 * B32 <= d < (d1 + 1) * B32;
    MulMono(d1 * B32, d, p);
    MulMono(d + 1, (d1 + 1) * B32, p);
    assert d1 * B32 * p == (d1 * p) * B32;
    TopFits(d1, s);
    assert (d1 + 1) * B32 * p == ((d1 + 1) * p) * B32;
  }

  lemma {:induction false} TopFits(d1: int, s: nat)
    requires s < 32 && 0 <= d1 && d1 * Pow2(s) < B32
    ensures (d1 + 1) * Pow2(s) <= B32
  {
    Pow2Sum(s, 32 - s);
    Pow2At31();
    NextMultiple(d1, Pow2(s), Pow2(32 - s));
  }

  lemma {:induction false} NextMultiple(a: int, p: int, c: int)
    requires p > 0 && a * p < p * c
    ensures (a + 1) * p <= p * c
  {
    if a >= c { MulMono(c, a, p); }
    MulMono(a + 1, c, p);
  }

  /** What the shifts and the division compute is the quotient by `v * k`, the divisor with its low bits cleared. */
  lemma {:induction false} Estimate(n: U64, d: U64, s: nat)
    requires d >= B32 && s == LeadingZeros(d / B32)
    ensures s <= 31
    ensures var v, k := (d * Pow2(s)) / B32, Pow2(32 - s);
            && B31 <= v && k >= 1 && v * k <= d < v * k + k
            && Divl(n / 2, v) == Some((n / 2) / v) && Shr((n / 2) / v, 31 - s) == n / (v * k)
  {
    LeadingZerosBound(d / B32);
    Normalized(d, s);
    var p, v, k := Pow2(s), (d * Pow2(s)) / B32, Pow2(32 - s);
    Pow2Sum(s, 32 - s);
    Pow2At31();
    hide LeadingZeros;
    LowBits(d, p, v, k);
    HalfQuotient(n, v);
    ShiftedQuotient(n, v, 31 - s);
  }

  lemma {:induction false} ShiftedQuotient(n: U64, v: int, j: nat)
    requires v > 0
    ensures v * Pow2(j + 1) > 0 && Shr((n / 2) / v, j) == n / (v * Pow2(j + 1))
  {
    var k1 := Pow2(j);
    DivDiv(n, 2, v);
    DivDiv(n, 2 * v, k1);
    assert (2 * v) * k1 == v * (2 * k1);
  }

  lemma {:induction false} HalfQuotient(n: U64, v: int)
    requires v >= B31
    ensures (n / 2) / v < B32
  {
    DivBounds(n / 2, v);
    if (n / 2) / v >= B32 { MulMono(B32, (n / 2) / v, v); MulMono(B31, v, B32); }
  }

  lemma {:induction false} LowBits(d: int, p: int, v: int, k: int)
    requires p >= 1 && k >= 1 && p * k == B32 && v == (d * p) / B32
    ensures v * k <= d < v * k + k
  {
    DivBounds(d * p, B32);
    assert v * B32 == (v * k) * p && (v + 1) * B32 == (v * k + k) * p;
    assert (d + 1) * p == d * p + p;
    if d < v * k { MulMono(d + 1, v * k, p); }
    if d >= v * k + k { MulMono(v * k + k, d, p); }
  }

  lemma {:induction false} MulMono2(a: int, b: int, c: int)
    requires a >= 0 && b <= c
    ensures a * b <= a * c
  {
  }

  lemma {:induction false} EstimateSmall(e: int, k: int, q: int)
    requires 1 <= k && 1 <= q && q * e < B64 && B31 * k <= e
    ensures q * k < 4 * B31
  {
    MulMono2(q, B31 * k, e);
    assert q * (B31 * k) == (q * k) * B31;
  }

  lemma {:induction false} LowBitsSmall(k: int, q: int)
    requires 1 <= k && 1 <= q && q * k < 4 * B31
    ensures (q - 1) * (k - 1) <= B31 * k
  {
    assert (q - 1) * (k - 1) == q * k - q - k + 1;
    if k < 4 {
      assert k == 1 || k == 2 || k == 3;
    }
  }

  /** Clearing the low bits of the divisor costs less than one divisor over the whole quotient. */
  lemma {:induction false} Slack(e: int, d: int, k: int, q: int)
    requires 1 <= k && 1 <= q && q * e < B64 && B31 * k <= e <= d < e + k
    ensures (q - 1) * (d - e) <= e
  {
    EstimateSmall(e, k, q);
    LowBitsSmall(k, q);
    MulMono2(q - 1, d - e, k - 1);
  }

  lemma {:induction false} QuotientAtLeast(n: int, d: int, q: int)
    requires d > 0 && q * d <= n
    ensures q <= n / d
  {
    DivBounds(n, d);
    if n / d < q { MulMono(n / d + 1, q, d); }
  }

  lemma {:induction false} QuotientFalls(n: int, e: int, d: int)
    requires 0 <= n && 0 < e <= d
    ensures 0 <= n / d <= n / e
  {
    DivBounds(n, d);
    QuotientAtLeast(n, d, 0);
    MulMono2(n / d, e, d);
    QuotientAtLeast(n, e, n / d);
  }

  /** The estimate is the quotient or one more. */
  lemma {:induction false} EstimateOff(n: U64, d: int, v: int, k: int)
    requires B31 <= v && 1 <= k && v * k <= d < v * k + k
    ensures d > 0 && v * k > 0 && n / d <= n / (v * k) <= n / d + 1
  {
    MulMono(B31, v, k);
    QuotientFalls(n, v * k, d);
    if n / (v * k) >= 1 { EstimateClose(n, d, v * k, k); }
  }

  lemma {:induction false} EstimateClose(n: U64, d: int, e: int, k: int)
    requires 1 <= k && B31 * k <= e <= d < e + k && n / e >= 1
    ensures n / e - 1 <= n / d
  {
    var q := n / e;
    DivBounds(n, e);
    Slack(e, d, k, q);
    SplitProduct(q, d, e);
    QuotientAtLeast(n, d, q - 1);
  }

  lemma {:induction false} SplitProduct(q: int, d: int, e: int)
    ensures (q - 1) * d == q * e - e + (q - 1) * (d - e)
  {
  }

  lemma {:induction false} CorrectExact(n: U64, d: U64, q: int)
    requires 0 < d <= n && n / d <= q <= n / d + 1 && q < B64
    ensures Correct(n, d, q) == n / d
  {
    hide Wrap64;
    var q0 := n / d;
    DivBounds(n, d);
    QuotientAtLeast(n, d, 1);
    StepBack(q0, d);
    StepBack(q0 + 1, d);
    MulMono(1, q0, d);
    WrapFits(q - 1);
    WrapFits(n - (q - 1) * d);
  }

  lemma {:induction false} StepBack(q: int, d: int)
    ensures (q - 1) * d == q * d - d
  {
  }

  /** udiv64 is exact for every dividend and every nonzero divisor; its DIVL never traps. */
  lemma {:induction false} Udiv64Exact(n: U64, d: U64)
    ensures d != 0 ==> Udiv64(n, d) == Some(n / d)
    ensures Udiv64(n, 0) == None
  {
    if d == 0 {
    } else if d / B32 == 0 {
      NarrowExact(n, d);
    } else if n < d {
      DivUnique(n, d, 0);
    } else {
      WideExact(n, d);
    }
  }

  lemma {:induction false} WideExact(n: U64, d: U64)
    requires B32 <= d <= n
    ensures LeadingZeros(d / B32) <= 31 && UdivWide(n, d, LeadingZeros(d / B32)) == Some(n / d)
  {
    var s := LeadingZeros(d / B32);
    LeadingZerosBound(d / B32);
    var v, k := (d * Pow2(s)) / B32, Pow2(32 - s);
    hide LeadingZeros, Wrap64, Correct, Pow2;
    Normalized(d, s);
    Estimate(n, d, s);
    WrapFits(d * Pow2(s));
    EstimateOff(n, d, v, k);
    QuotientFits(n, d);
    CorrectExact(n, d, n / (v * k));
  }

  lemma {:induction false} QuotientFits(n: U64, d: U64)
    requires B32 <= d
    ensures n / d < B32
  {
    DivBounds(n, d);
    if n / d >= B32 { MulMono(B32, n / d, d); MulMono2(B32, B32, d); }
  }

  // ---------------------------------------------------------------- remainders and signs

  /** umod64, whose result type has 32 bits. */
  function Umod64(n: U64, d: U64): Option<int> {
    var q := Udiv64(n, d);
    if q == None then None else Some(Wrap64(n - d * q.value) % B32)
  }

  lemma {:induction false} DivMod(n: int, d: int)
    requires d > 0
    ensures n - d * (n / d) == n % d && 0 <= n % d < d
  {
  }

  /** umod64 is the remainder cut down to 32 bits. */
  lemma {:induction false} Umod64Truncated(n: U64, d: U64)
    requires d != 0
    ensures Umod64(n, d) == Some((n % d) % B32)
  {
    hide Udiv64, Wrap64;
    Udiv64Exact(n, d);
    DivMod(n, d);
    WrapFits(n % d);
  }

  /** So it is exact for every dividend if and only if the divisor is at most 2^32. */
  lemma {:induction false} Umod64Exact(d: U64)
    requires d != 0
    ensures (forall n: U64 {:trigger Umod64(n, d)} :: Umod64(n, d) == Some(n % d)) <==> d <= B32
  {
    hide Umod64;
    if d <= B32 {
      forall n: U64 {:trigger Umod64(n, d)} ensures Umod64(n, d) == Some(n % d) {
        Umod64Truncated(n, d);
        DivMod(n, d);
      }
    } else {
      Umod64Truncated(B32, d);
      DivUnique(B32, d, 0);
      DivMod(B32, d);
    }
  }

  /** Quotient with the sign of C: rounded toward zero. */
  function Truncated(n: int, d: int): int
    requires d != 0
  {
    if n >= 0 then (if d > 0 then n / d else -(n / -d)) else (if d > 0 then -(-n / d) else -n / -d)
  }

  function Abs(x: int): int { if x >= 0 then x else -x }

  /** sdiv64. */
  function Sdiv64(n: int, d: int): Option<int>
    requires IsS64(n) && IsS64(d)
  {
    var nAbs := if n >= 0 then n else Wrap64(-n);
    var dAbs := if d >= 0 then d else Wrap64(-d);
    var q := Udiv64(nAbs, dAbs);
    if q == None then None
    else if (n < 0) == (d < 0) then Some(Signed64(q.value)) else Some(Signed64(-Signed64(q.value)))
  }

  lemma {:induction false} SignedFits(x: int)
    requires IsS64(x)
    ensures Signed64(x) == x
  {
  }

  lemma {:induction false} SignedTop()
    ensures Signed64(B63) == -B63 && Signed64(-Signed64(B63)) == -B63
  {
  }

  lemma {:induction false} QuotientSmall(a: int, b: int)
    requires 0 <= a <= B63 && b >= 1
    ensures 0 <= a / b <= B63 && (a / b == B63 ==> a == B63 && b == 1)
  {
    DivBounds(a, b);
    QuotientAtLeast(a, b, 0);
    MulMono2(a / b, 1, b);
    if b > 1 { MulMono2(a / b, 2, b); }
  }

  /** sdiv64 truncates toward zero, except for the one quotient that 64 bits cannot hold. */
  lemma {:induction false} Sdiv64Exact(n: int, d: int)
    requires IsS64(n) && IsS64(d)
    ensures d == 0 ==> Sdiv64(n, d) == None
    ensures d != 0 && !(n == -B63 && d == -1) ==> Sdiv64(n, d) == Some(Truncated(n, d))
    ensures n == -B63 && d == -1 ==> Sdiv64(n, d) == Some(-B63)
  {
    hide Udiv64, Wrap64, Signed64;
    var a, b := Abs(n), Abs(d);
    WrapFits(a);
    WrapFits(b);
    Udiv64Exact(a, b);
    if d != 0 {
      QuotientSmall(a, b);
      var q := a / b;
      SignedTop();
      if q < B63 {
        SignedFits(q);
        SignedFits(-q);
      }
    }
  }

  /** smod64, whose result type has 32 bits. */
  function Smod64(n: int, d: int): Option<int>
    requires IsS64(n) && IsS64(d)
  {
    var q := Sdiv64(n, d);
    if q == None then None else Some(Signed32(Signed64(n - d * q.value)))
  }

  /** Remainder with the sign of C: that of the dividend. */
  function Remainder(n: int, d: int): int
    requires d != 0
  {
    n - d * Truncated(n, d)
  }

  lemma {:induction false} RemainderRange(n: int, d: int)
    requires d != 0
    ensures n >= 0 ==> 0 <= Remainder(n, d) < Abs(d) && Remainder(n, d) <= n
    ensures n < 0 ==> -Abs(d) < Remainder(n, d) <= 0 && n <= Remainder(n, d)
  {
    var a, b := Abs(n), Abs(d);
    DivMod(a, b);
    QuotientAtLeast(a, b, 0);
    MulMono2(b, 0, a / b);
    assert d * (a / b) == -((-d) * (a / b)) && d * -(a / b) == (-d) * (a / b);
  }

  lemma {:induction false} Smod64Truncated(n: int, d: int)
    requires IsS64(n) && IsS64(d) && d != 0
    ensures Smod64(n, d) == Some(Signed32(Remainder(n, d)))
  {
    hide Sdiv64, Signed64, Signed32;
    if n == -B63 && d == -1 {
      Sdiv64Exact(n, d);
      MinByMinusOne();
    } else {
      Sdiv64Exact(n, d);
      RemainderRange(n, d);
      SignedFits(Remainder(n, d));
    }
  }

  lemma {:induction false} MinByMinusOne()
    ensures Remainder(-B63, -1) == 0 && Signed64(-B63 - (-1) * -B63) == 0
  {
  }

  lemma {:induction false} Signed32Exact(x: int)
    ensures Signed32(x) == x <==> IsS32(x)
  {
  }

  /** smod64 is exact for every dividend if and only if the divisor is at most 2^31 either way. */
  lemma {:induction false} Smod64Exact(d: int)
    requires IsS64(d) && d != 0
    ensures (forall n: int {:trigger Smod64(n, d)} | IsS64(n) :: Smod64(n, d) == Some(Remainder(n, d))) <==>
      Abs(d) <= B31
  {
    hide Smod64, Signed32, Remainder;
    if Abs(d) <= B31 {
      forall n: int {:trigger Smod64(n, d)} | IsS64(n) ensures Smod64(n, d) == Some(Remainder(n, d)) {
        Smod64Truncated(n, d);
        RemainderRange(n, d);
        Signed32Exact(Remainder(n, d));
      }
    } else {
      Smod64Truncated(B31, d);
      SmallDividend(B31, d);
      Signed32Exact(Remainder(B31, d));
    }
  }

  lemma {:induction false} SmallDividend(n: int, d: int)
    requires 0 <= n < Abs(d)
    ensures Remainder(n, d) == n
  {
    DivUnique(n, Abs(d), 0);
  }
}
