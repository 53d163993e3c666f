/**
 ustar archive headers (lib/ustar.c), as the "ustar Interchange Format" of the pax utility in IEEE Std 1003.1-2001 lays
 them out: what ustar_make_header writes, ustar_parse_header reads back. Bytes are integers; a C string is its bytes
 before the terminator.
 */
module Ustar {
  import opened Basics

  const HEADER_SIZE: int := 512
  const NAME: int := 0
  const MODE: int := 100
  const UID: int := 108
  const GID: int := 116
  const SIZE: int := 124
  const MTIME: int := 136
  const CHKSUM: int := 148
  const TYPEFLAG: int := 156
  const MAGIC: int := 257
  const VERSION: int := 263
  const UNAME: int := 265
  const GNAME: int := 297
  const PREFIX: int := 345

  const SLASH: int := 0x2f
  const DOT: int := 0x2e
  const ZERO: int := 0x30
  const SPACE: int := 0x20
  const REGULAR: int := 0x30
  const DIRECTORY: int := 0x35
  const ULONG_MAX: int := 0xffff_ffff
  const INT_MAX: int := 0x7fff_ffff
  const BUILD_TIME: int := 1136102400

  /** "ustar" and "root". */
  const USTAR: seq<int> := [0x75, 0x73, 0x74, 0x61, 0x72]
  const ROOT: seq<int> := [0x72, 0x6f, 0x6f, 0x74]

  ghost predicate IsString(s: seq<int>) {
    forall i | 0 <= i < |s| :: 0 < s[i] < 256
  }

  ghost predicate Bytes(s: seq<int>) {
    forall i | 0 <= i < |s| :: 0 <= s[i] < 256
  }

  // ---------------------------------------------------------------- names

  predicate Prefixed(s: seq<int>) {
    || (|s| >= 1 && s[0] == SLASH)
    || (|s| >= 2 && s[0] == DOT && s[1] == SLASH)
    || (|s| >= 3 && s[0] == DOT && s[1] == DOT && s[2] == SLASH)
  }

  ghost predicate Suffix(r: seq<int>, s: seq<int>) {
    |r| <= |s| && r == s[|s| - |r|..]
  }

  lemma {:induction false} SuffixOf(r: seq<int>, t: seq<int>, s: seq<int>)
    requires Suffix(r, t) && Suffix(t, s)
    ensures Suffix(r, s) && (IsString(s) ==> IsString(r))
  {
  }

  /** strchr (s, '/') + 1. */
  function PastSlash(s: seq<int>): (r: seq<int>)
    requires SLASH in s
    ensures |r| < |s| && Suffix(r, s)
  {
    if s[0] == SLASH then s[1..] else
      SuffixOf(PastSlash(s[1..]), s[1..], s);
      PastSlash(s[1..])
  }

  lemma {:induction false} PrefixHasSlash(s: seq<int>)
    requires Prefixed(s)
    ensures SLASH in s
  {
    if s[0] != SLASH && s[1] != SLASH { assert s[2] == SLASH; }
  }

  /** The name without the prefixes, before the empty name and ".." are replaced. */
  function Bare(s: seq<int>): (r: seq<int>)
    ensures !Prefixed(r) && Suffix(r, s)
    decreases |s|
  {
    if Prefixed(s) then
      PrefixHasSlash(s);
      SuffixOf(Bare(PastSlash(s)), PastSlash(s), s);
      Bare(PastSlash(s))
    else s
  }

  /** strip_antisocial_prefixes. */
  function Strip(s: seq<int>): seq<int> {
    var r := Bare(s);
    if r == [] || r == [DOT, DOT] then [DOT] else r
  }

  /** A stripped name never leads out of the destination directory, and is a suffix of the name or ".". */
  lemma {:induction false} StripSafe(s: seq<int>)
    ensures var r := Strip(s); r != [] && r != [DOT, DOT] && !Prefixed(r) && (r == [DOT] || Suffix(r, s))
    ensures IsString(s) ==> IsString(Strip(s))
  {
    hide Bare;
    SuffixOf(Bare(s), s, s);
  }

  lemma {:induction false} StripTwice(s: seq<int>)
    ensures Strip(Strip(s)) == Strip(s)
  {
    StripSafe(s);
    BareAlready(Strip(s));
    hide Bare;
  }

  lemma {:induction false} BareAlready(s: seq<int>)
    requires !Prefixed(s)
    ensures Bare(s) == s
  {
  }

  /** A run of the prefixes "/", "./" and "../". */
  predicate OnlyPrefixes(s: seq<int>)
    decreases |s|
  {
    || s == []
    || (s[0] == SLASH && OnlyPrefixes(s[1..]))
    || (|s| >= 2 && s[..2] == [DOT, SLASH] && OnlyPrefixes(s[2..]))
    || (|s| >= 3 && s[..3] == [DOT, DOT, SLASH] && OnlyPrefixes(s[3..]))
  }

  /** Such prefixes, and nothing else, are taken off; what is left stays as it is, but for the empty name and "..". */
  lemma {:induction false} StripExactly(pre: seq<int>, rest: seq<int>)
    requires OnlyPrefixes(pre) && !Prefixed(rest)
    ensures Bare(pre + rest) == rest
    ensures Strip(pre + rest) == if rest == [] || rest == [DOT, DOT] then [DOT] else rest
    decreases |pre|
  {
    hide Suffix;
    if pre == [] {
      assert pre + rest == rest;
      BareAlready(rest);
    } else {
      var k := if pre[0] == SLASH then 1 else if pre[1] == SLASH then 2 else 3;
      assert (pre + rest)[k..] == pre[k..] + rest;
      SlashAt(pre + rest, k);
      StripExactly(pre[k..], rest);
    }
  }

  lemma {:induction false} SlashAt(s: seq<int>, k: nat)
    requires 1 <= k <= 3 && k <= |s| && s[k - 1] == SLASH && forall i | 0 <= i < k - 1 :: s[i] == DOT
    ensures Prefixed(s) && SLASH in s && PastSlash(s) == s[k..] && Bare(s) == Bare(s[k..])
  {
    hide Suffix;
    PrefixHasSlash(s);
    PastDots(s, k);
  }

  lemma {:induction false} PastDots(s: seq<int>, k: nat)
    requires 1 <= k <= |s| && s[k - 1] == SLASH && forall i | 0 <= i < k - 1 :: s[i] == DOT
    ensures SLASH in s && PastSlash(s) == s[k..]
  {
    hide Suffix;
    if k > 1 { PastDots(s[1..], k - 1); }
  }

  /** Every name is such prefixes and a rest. */
  lemma {:induction false} StripSplits(s: seq<int>) returns (pre: seq<int>, rest: seq<int>)
    ensures s == pre + rest && OnlyPrefixes(pre) && !Prefixed(rest)
    decreases |s|
  {
    if Prefixed(s) {
      var k := if s[0] == SLASH then 1 else if s[1] == SLASH then 2 else 3;
      var p, r := StripSplits(s[k..]);
      pre, rest := s[..k] + p, r;
      assert pre[k..] == p && pre[..k] == s[..k];
      assert s == s[..k] + s[k..];
    } else {
      pre, rest := [], s;
    }
  }

  method StripPrefixes(name: seq<int>) returns (r: seq<int>)
    ensures r == Strip(name)
  {
    r := name;
    while Prefixed(r)
      invariant Bare(r) == Bare(name)
      decreases |r|
    {
      PrefixHasSlash(r);
      r := PastSlash(r);
    }
    if r == [] || r == [DOT, DOT] {
      r := [DOT];
    }
  }

  // ---------------------------------------------------------------- octal fields

  /** What "%0no" prints for a value of at most `n` digits. */
  function Octal(v: nat, n: nat): (s: seq<int>)
    ensures |s| == n && forall i | 0 <= i < n :: ZERO <= s[i] < ZERO + 8
  {
    if n == 0 then [] else Octal(v / 8, n - 1) + [ZERO + v % 8]
  }

  /** parse_octal_field, from offset `ofs` with the value so far. */
  function ParseFrom(s: seq<int>, ofs: nat, value: nat): Option<nat>
    requires ofs <= |s|
    decreases |s| - ofs
  {
    if ofs == |s| then None
    else if ZERO <= s[ofs] <= ZERO + 7 then
      if value > ULONG_MAX / 8 then None else ParseFrom(s, ofs + 1, s[ofs] - ZERO + value * 8)
    else if s[ofs] == SPACE || s[ofs] == 0 then (if ofs > 0 then Some(value) else None)
    else None
  }

  method ParseOctal(h: array<int>, at: nat, size: nat) returns (r: Option<nat>)
    requires at + size <= h.Length
    ensures r == ParseFrom(h[at..at + size], 0, 0)
  {
    ghost var s := h[at..at + size];
    var value := 0;
    var ofs := 0;
    while ofs < size
      invariant 0 <= ofs <= size && value >= 0 && ParseFrom(s, ofs, value) == ParseFrom(s, 0, 0)
    {
      var c := h[at + ofs];
      assert c == s[ofs];
      if ZERO <= c <= ZERO + 7 {
        if value > ULONG_MAX / 8 {
          return None;
        }
        value := c - ZERO + value * 8;
      } else if c == SPACE || c == 0 {
        return if ofs > 0 then Some(value) else None;
      } else {
        return None;
      }
      ofs := ofs + 1;
    }
    return None;
  }

  /** Reading the digits of `v` from the front arrives at `v`. */
  lemma {:induction false} ParseDigits(v: nat, n: nat, s: seq<int>)
    requires v < Pow8(n) && v < B32 && n < |s| && s[..n] == Octal(v, n)
    ensures ParseFrom(s, 0, 0) == ParseFrom(s, n, v)
    decreases n
  {
    hide ParseFrom;
    if n > 0 {
      var t := Octal(v, n);
      assert t[..n - 1] == Octal(v / 8, n - 1) && t[n - 1] == ZERO + v % 8;
      assert s[..n - 1] == t[..n - 1] && s[n - 1] == t[n - 1];
      ParseDigits(v / 8, n - 1, s);
      ParseStep(s, n - 1, v / 8, v % 8);
    }
  }

  lemma {:induction false} ParseStep(s: seq<int>, ofs: nat, value: nat, d: nat)
    requires ofs < |s| && d < 8 && s[ofs] == ZERO + d && value <= ULONG_MAX / 8
    ensures ParseFrom(s, ofs, value) == ParseFrom(s, ofs + 1, d + value * 8)
  {
  }

  /** The number that octal digits write. */
  function Value8(s: seq<int>): int {
    if s == [] then 0 else 8 * Value8(s[..|s| - 1]) + (s[|s| - 1] - ZERO)
  }

  predicate OctalDigits(s: seq<int>) {
    forall i | 0 <= i < |s| :: ZERO <= s[i] <= ZERO + 7
  }

  lemma {:induction false} ValueStep(f: seq<int>, k: nat)
    requires k < |f| && OctalDigits(f[..k + 1])
    ensures Value8(f[..k + 1]) == 8 * Value8(f[..k]) + (f[k] - ZERO)
  {
    assert f[..k + 1][..k] == f[..k];
  }

  lemma {:induction false} ValueGrows(f: seq<int>, k: nat, n: nat)
    requires k <= n <= |f| && OctalDigits(f[..n])
    ensures 0 <= Value8(f[..k]) <= Value8(f[..n]) && (k < n ==> 8 * Value8(f[..k]) <= Value8(f[..n]))
    decreases n
  {
    hide Value8;
    if n > 0 {
      assert OctalDigits(f[..n - 1]) && f[..n][n - 1] == f[n - 1];
      ValueStep(f, n - 1);
      if k < n { ValueGrows(f, k, n - 1); } else { ValueGrows(f, n - 1, n - 1); }
    } else {
      NoValue();
    }
  }

  lemma {:induction false} NoValue()
    ensures Value8([]) == 0
  {
  }

  /** An octal field: `n` digits and then a space or a null byte. */
  ghost predicate OctalField(f: seq<int>, n: nat) {
    0 < n < |f| && OctalDigits(f[..n]) && (f[n] == SPACE || f[n] == 0)
  }

  /** A field is read as the number its digits write, if it ends and the number fits in 32 bits, and else refused. */
  lemma {:induction false} ParseExact(f: seq<int>, n: nat)
    requires OctalField(f, n)
    ensures ParseFrom(f, 0, 0) == if Value8(f[..n]) <= ULONG_MAX then Some(Value8(f[..n])) else None
  {
    ParsedTo(f, n, 0);
  }

  lemma {:induction false} ParsedTo(f: seq<int>, n: nat, k: nat)
    requires OctalField(f, n) && k <= n
    ensures Value8(f[..k]) >= 0
    ensures Value8(f[..k]) <= ULONG_MAX ==>
      ParseFrom(f, k, Value8(f[..k])) == if Value8(f[..n]) <= ULONG_MAX then Some(Value8(f[..n])) else None
    decreases n - k
  {
    hide Value8;
    ValueGrows(f, k, n);
    if k < n {
      assert f[..n][k] == f[k];
      assert f[..k + 1] == f[..n][..k + 1];
      ValueStep(f, k);
      ValueGrows(f, k + 1, n);
      ParsedTo(f, n, k + 1);
    }
  }

  /** Nothing else is read as a number. */
  lemma {:induction false} ParseOnly(f: seq<int>, k: nat, value: nat) returns (n: nat)
    requires k <= |f| && OctalDigits(f[..k]) && ParseFrom(f, k, value).Some?
    ensures OctalField(f, n)
    decreases |f| - k
  {
    if ZERO <= f[k] <= ZERO + 7 {
      n := ParseOnly(f, k + 1, f[k] - ZERO + value * 8);
    } else {
      n := k;
    }
  }

  /** A field written with "%0no" and its terminator is read back. */
  lemma {:induction false} OctalRoundTrip(v: nat, n: nat)
    requires v < Pow8(n) && v < B32 && n > 0
    ensures ParseFrom(Octal(v, n) + [0], 0, 0) == Some(v)
  {
    var s := Octal(v, n) + [0];
    assert s[..n] == Octal(v, n);
    ParseDigits(v, n, s);
  }

  // ---------------------------------------------------------------- checksums

  /** A header byte as the checksum counts it: its own field counts as spaces. */
  function Counted(h: seq<int>, i: int): int
    requires 0 <= i < |h|
  {
    if CHKSUM <= i < CHKSUM + 8 then SPACE else h[i]
  }

  function Sum(h: seq<int>, n: nat): int
    requires n <= |h|
  {
    if n == 0 then 0 else Sum(h, n - 1) + Counted(h, n - 1)
  }

  /** calculate_chksum. */
  method Checksum(h: array<int>) returns (sum: int)
    requires h.Length == HEADER_SIZE
    ensures sum == Sum(h[..], HEADER_SIZE)
  {
    sum := 0;
    for i := 0 to HEADER_SIZE
      invariant sum == Sum(h[..], i)
    {
      var inField := i >= CHKSUM && i < CHKSUM + 8;
      sum := sum + if inField then SPACE else h[i];
    }
  }

  /** The sum of a header of zeros: eight spaces. */
  lemma {:induction false} SumZeros(h: seq<int>, n: nat)
    requires n <= |h| && forall i | 0 <= i < n :: h[i] == 0
    ensures Sum(h, n) == if n <= CHKSUM then 0 else if n <= CHKSUM + 8 then SPACE * (n - CHKSUM) else 256
  {
    if n > 0 { SumZeros(h, n - 1); }
  }

  /** A byte counts for its value, and one of the checksum field not at all. */
  lemma {:induction false} SumChange(h: seq<int>, i: nat, b: int, n: nat)
    requires i < |h| && n <= |h|
    ensures Sum(h[i := b], n) - Sum(h, n) == if i < n && !(CHKSUM <= i < CHKSUM + 8) then b - h[i] else 0
  {
    if n > 0 { SumChange(h, i, b, n - 1); }
  }

  /** Filling in the checksum does not change it. */
  lemma {:induction false} SumIgnoresField(h: seq<int>, b: seq<int>, n: nat)
    requires |h| == HEADER_SIZE && |b| == 8 && n <= HEADER_SIZE
    ensures Sum(Overwrite(h, CHKSUM, b), n) == Sum(h, n)
  {
    hide Overwrite;
    if n > 0 { SumIgnoresField(h, b, n - 1); }
  }

  lemma {:induction false} SumBound(h: seq<int>, n: nat)
    requires Bytes(h) && n <= |h|
    ensures 0 <= Sum(h, n) <= 255 * n
  {
    if n > 0 { SumBound(h, n - 1); }
  }

  // ---------------------------------------------------------------- ustar_make_header

  method PutBytes(h: array<int>, at: int, b: seq<int>)
    requires 0 <= at && at + |b| <= h.Length
    modifies h
    ensures h[..] == Overwrite(old(h[..]), at, b)
  {
    forall i | 0 <= i < |b| {
      h[at + i] := b[i];
    }
  }

  /** What strlcpy stores in a field of `size` bytes. */
  function Field(s: seq<int>, size: nat): (b: seq<int>)
    requires size > 0
    ensures |b| <= size
  {
    (if |s| < size then s else s[..size - 1]) + [0]
  }

  /** The header up to the modification time. */
  function Front(name: seq<int>, kind: int, size: int): (h: seq<int>)
    ensures |h| == HEADER_SIZE
  {
    var h0 := Overwrite(seq(HEADER_SIZE, _ => 0), NAME, Field(name, 100));
    var h1 := Overwrite(h0, MODE, Octal(if kind == REGULAR then 420 else 493, 7) + [0]);
    var h2 := Overwrite(h1, UID, Field(seq(7, _ => ZERO), 8));
    var h3 := Overwrite(h2, GID, Field(seq(7, _ => ZERO), 8));
    var h4 := Overwrite(h3, SIZE, Octal(size % B32, 11) + [0]);
    Overwrite(h4, MTIME, Octal(BUILD_TIME, 11) + [0])
  }

  /** The header but for its checksum. */
  function Unsummed(name: seq<int>, kind: int, size: int): (h: seq<int>)
    ensures |h| == HEADER_SIZE
  {
    var h6 := Overwrite(Front(name, kind, size), TYPEFLAG, [kind]);
    var h7 := Overwrite(h6, MAGIC, Field(USTAR, 6));
    var h8 := Overwrite(h7, VERSION, [ZERO, ZERO]);
    var h9 := Overwrite(h8, GNAME, Field(ROOT, 32));
    Overwrite(h9, UNAME, Field(ROOT, 32))
  }

  function Header(name: seq<int>, kind: int, size: int): (h: seq<int>)
    requires Sum(Unsummed(name, kind, size), HEADER_SIZE) >= 0
    ensures |h| == HEADER_SIZE
  {
    var u := Unsummed(name, kind, size);
    Overwrite(u, CHKSUM, Octal(Sum(u, HEADER_SIZE), 7) + [0])
  }

  /** What the reader looks at in a header. */
  ghost predicate Readable(h: seq<int>, name: seq<int>, kind: int, size: int) {
    && |h| == HEADER_SIZE && Bytes(h) && |name| <= 99
    && h[NAME..NAME + |name|] == name && (forall i | |name| <= i < 100 :: h[i] == 0)
    && h[SIZE..SIZE + 12] == Octal(size % B32, 11) + [0]
    && h[TYPEFLAG] == kind && h[MAGIC..MAGIC + 6] == USTAR + [0] && h[VERSION] == ZERO && h[VERSION + 1] == ZERO
    && h[PREFIX] == 0
  }

  lemma {:induction false} PutOther(h: seq<int>, at: int, b: seq<int>, name: seq<int>, kind: int, size: int)
    requires Readable(h, name, kind, size) && Bytes(b) && CHKSUM <= at && at + |b| <= CHKSUM + 8
    ensures Readable(Overwrite(h, at, b), name, kind, size)
  {
    hide Overwrite;
    var r := Overwrite(h, at, b);
    assert r[NAME..NAME + |name|] == h[NAME..NAME + |name|];
    assert r[SIZE..SIZE + 12] == h[SIZE..SIZE + 12];
    assert r[MAGIC..MAGIC + 6] == h[MAGIC..MAGIC + 6];
  }

  lemma {:induction false} UnsummedReadable(name: seq<int>, kind: int, size: int)
    requires IsString(name) && |name| <= 99 && 0 < kind < 256
    ensures Readable(Unsummed(name, kind, size), name, kind, size)
  {
    hide Overwrite, Octal;
    var h := Unsummed(name, kind, size);
    assert h[NAME..NAME + |name|] == name;
    assert h[SIZE..SIZE + 12] == Octal(size % B32, 11) + [0];
    assert h[MAGIC..MAGIC + 6] == USTAR + [0];
  }

  lemma {:induction false} SumFits(h: seq<int>)
    requires |h| == HEADER_SIZE && Bytes(h)
    ensures 0 <= Sum(h, HEADER_SIZE) < Pow8(7) && Sum(h, HEADER_SIZE) < B32
  {
    SumBound(h, HEADER_SIZE);
    hide Sum;
    assert Pow8(3) == 512;
    assert Pow8(6) == 512 * 512;
  }

  method PutFront(name: seq<int>, kind: int, size: int, h: array<int>)
    requires h.Length == HEADER_SIZE
    modifies h
    ensures h[..] == Front(name, kind, size)
  {
    hide Overwrite, Octal, Field;
    forall i | 0 <= i < HEADER_SIZE {
      h[i] := 0;
    }
    assert h[..] == seq(HEADER_SIZE, _ => 0);
    PutBytes(h, NAME, Field(name, 100));
    PutBytes(h, MODE, Octal(if kind == REGULAR then 420 else 493, 7) + [0]);
    PutBytes(h, UID, Field(seq(7, _ => ZERO), 8));
    PutBytes(h, GID, Field(seq(7, _ => ZERO), 8));
    PutBytes(h, SIZE, Octal(size % B32, 11) + [0]);
    PutBytes(h, MTIME, Octal(BUILD_TIME, 11) + [0]);
  }

  method PutRest(name: seq<int>, kind: int, size: int, h: array<int>)
    requires h.Length == HEADER_SIZE && h[..] == Front(name, kind, size)
    modifies h
    ensures h[..] == Unsummed(name, kind, size)
  {
    hide Overwrite, Front, Field;
    PutBytes(h, TYPEFLAG, [kind]);
    PutBytes(h, MAGIC, Field(USTAR, 6));
    PutBytes(h, VERSION, [ZERO, ZERO]);
    PutBytes(h, GNAME, Field(ROOT, 32));
    PutBytes(h, UNAME, Field(ROOT, 32));
  }

  /** ustar_make_header. */
  method MakeHeader(name: seq<int>, kind: int, size: int, h: array<int>) returns (ok: bool)
    requires h.Length == HEADER_SIZE && IsString(name) && (kind == REGULAR || kind == DIRECTORY)
    requires -INT_MAX - 1 <= size <= INT_MAX
    modifies h
    ensures ok <==> |Strip(name)| <= 99
    ensures !ok ==> h[..] == old(h[..])
    ensures ok ==> Sum(Unsummed(Strip(name), kind, size), HEADER_SIZE) >= 0 && h[..] == Header(Strip(name), kind, size)
  {
    var stripped := StripPrefixes(name);
    if |stripped| > 99 {
      return false;
    }
    StripSafe(name);
    UnsummedReadable(stripped, kind, size);
    SumFits(Unsummed(stripped, kind, size));
    hide Overwrite, Octal, Strip, Bare, Sum, Readable, Unsummed, Front, Pow8;
    PutFront(stripped, kind, size, h);
    PutRest(stripped, kind, size, h);
    var sum := Checksum(h);
    PutBytes(h, CHKSUM, Octal(sum, 7) + [0]);
    return true;
  }

  // ---------------------------------------------------------------- ustar_parse_header

  datatype Why =
    | NotUstar | BadVersion | BadChecksumField | ChecksumMismatch | NameTooLong | BadType | BadSizeField | TooLarge

  datatype Parsed = EndOfArchive | Entry(name: seq<int>, kind: int, size: int) | Failed(why: Why)

  function Parse(h: seq<int>): Parsed
    requires |h| == HEADER_SIZE
  {
    if forall i | 0 <= i < HEADER_SIZE :: h[i] == 0 then EndOfArchive
    else if h[MAGIC..MAGIC + 6] != USTAR + [0] then Failed(NotUstar)
    else if h[VERSION] != ZERO || h[VERSION + 1] != ZERO then Failed(BadVersion)
    else if ParseFrom(h[CHKSUM..CHKSUM + 8], 0, 0).None? then Failed(BadChecksumField)
    else if ParseFrom(h[CHKSUM..CHKSUM + 8], 0, 0).value != Sum(h, HEADER_SIZE) then Failed(ChecksumMismatch)
    else if h[NAME + 99] != 0 || h[PREFIX] != 0 then Failed(NameTooLong)
    else if h[TYPEFLAG] != REGULAR && h[TYPEFLAG] != DIRECTORY then Failed(BadType)
    else if h[TYPEFLAG] == REGULAR && ParseFrom(h[SIZE..SIZE + 12], 0, 0).None? then Failed(BadSizeField)
    else if h[TYPEFLAG] == REGULAR && ParseFrom(h[SIZE..SIZE + 12], 0, 0).value > INT_MAX then Failed(TooLarge)
    else Entry(Strip(UpToZero(h[NAME..])), h[TYPEFLAG],
        if h[TYPEFLAG] == REGULAR then ParseFrom(h[SIZE..SIZE + 12], 0, 0).value else 0)
  }

  /** No accepted header stays accepted when one byte outside the checksum field is changed. */
  lemma {:induction false} ChangeRefused(h: seq<int>, i: nat, b: int)
    requires |h| == HEADER_SIZE && Parse(h).Entry? && i < HEADER_SIZE && !(CHKSUM <= i < CHKSUM + 8) && b != h[i]
    ensures Parse(h[i := b]).Failed?
  {
    hide ParseFrom, Sum, Strip, UpToZero;
    SumChange(h, i, b, HEADER_SIZE);
    var g := h[i := b];
    assert g[CHKSUM..CHKSUM + 8] == h[CHKSUM..CHKSUM + 8];
    assert h[MAGIC..MAGIC + 6][0] == h[MAGIC] == 0x75 && h[MAGIC..MAGIC + 6][1] == h[MAGIC + 1] == 0x73;
    assert g[MAGIC] != 0 || g[MAGIC + 1] != 0;
  }

  /** A field holds the number `v` in octal. */
  ghost predicate FieldHolds(f: seq<int>, v: int) {
    exists n: nat :: OctalField(f, n) && Value8(f[..n]) == v
  }

  lemma {:induction false} FieldReads(f: seq<int>)
    ensures var r := ParseFrom(f, 0, 0); r.Some? ==> FieldHolds(f, r.value) && r.value <= ULONG_MAX
    ensures forall v | FieldHolds(f, v) :: ParseFrom(f, 0, 0) == if v <= ULONG_MAX then Some(v) else None
  {
    hide ParseFrom, Value8;
    if ParseFrom(f, 0, 0).Some? {
      var n := ParseOnly(f, 0, 0);
      ParseExact(f, n);
    }
    forall v | FieldHolds(f, v) ensures ParseFrom(f, 0, 0) == if v <= ULONG_MAX then Some(v) else None {
      var n: nat :| OctalField(f, n) && Value8(f[..n]) == v;
      ParseExact(f, n);
    }
  }

  /** What is wrong with a header that is refused for a reason. */
  ghost predicate Fault(h: seq<int>, why: Why)
    requires |h| == 512
  {
    match why
    case NotUstar => h[257..263] != [0x75, 0x73, 0x74, 0x61, 0x72, 0]
    case BadVersion => h[263..265] != [0x30, 0x30]
    case BadChecksumField => forall v | 0 <= v < B32 :: !FieldHolds(h[148..156], v)
    case ChecksumMismatch => !FieldHolds(h[148..156], Sum(h, 512))
    case NameTooLong => h[99] != 0 || h[345] != 0
    case BadType => h[156] != 0x30 && h[156] != 0x35
    case BadSizeField => h[156] == 0x30 && forall v | 0 <= v < B32 :: !FieldHolds(h[124..136], v)
    case TooLarge => h[156] == 0x30 && forall v | 0 <= v < B31 :: !FieldHolds(h[124..136], v)
  }

  lemma {:induction false} FirstFault(h: seq<int>)
    requires |h| == 512 && Parse(h).Failed?
    ensures Fault(h, Parse(h).why)
  {
    hide ParseFrom, Sum, Strip, UpToZero, FieldHolds;
    FieldReads(h[148..156]);
    FieldReads(h[124..136]);
  }

  lemma {:induction false} NoFault(h: seq<int>, why: Why)
    requires |h| == 512 && Parse(h).Entry?
    ensures !Fault(h, why)
  {
    hide ParseFrom, Sum, Strip, UpToZero, FieldHolds;
    FieldReads(h[148..156]);
    FieldReads(h[124..136]);
  }

  /** A header other than all zeros is accepted exactly when nothing is wrong with it, and refused for something that
      is. An entry has the type and size that the header's fields hold, and its name stripped. */
  lemma {:induction false} AcceptedExactly(h: seq<int>)
    requires |h| == 512
    ensures Parse(h) == EndOfArchive <==> forall i | 0 <= i < 512 :: h[i] == 0
    ensures Parse(h) != EndOfArchive ==> (Parse(h).Entry? <==> forall why :: !Fault(h, why))
    ensures Parse(h).Failed? ==> Fault(h, Parse(h).why)
    ensures Parse(h).Entry? ==>
      && Parse(h).kind == h[156] && Parse(h).name == Strip(UpToZero(h))
      && (if h[156] == 0x30 then FieldHolds(h[124..136], Parse(h).size) && 0 <= Parse(h).size < B31
          else Parse(h).size == 0)
  {
    assert h[NAME..] == h;
    hide ParseFrom, Sum, Strip, UpToZero, FieldHolds, Fault;
    FieldReads(h[124..136]);
    if Parse(h).Failed? { FirstFault(h); }
    if Parse(h).Entry? { forall why ensures !Fault(h, why) { NoFault(h, why); } }
  }

  /** is_all_zeros. */
  method IsAllZeros(h: array<int>) returns (b: bool)
    ensures b <==> forall i | 0 <= i < h.Length :: h[i] == 0
  {
    for i := 0 to h.Length
      invariant forall j | 0 <= j < i :: h[j] == 0
    {
      if h[i] != 0 {
        return false;
      }
    }
    return true;
  }

  method ParseHeader(h: array<int>) returns (r: Parsed)
    requires h.Length == HEADER_SIZE
    ensures r == Parse(h[..])
  {
    hide ParseFrom, Sum, Strip, UpToZero;
    var zeros := IsAllZeros(h);
    if zeros {
      return EndOfArchive;
    }
    ghost var s := h[..];
    assert s[MAGIC..MAGIC + 6] == h[MAGIC..MAGIC + 6] && s[CHKSUM..CHKSUM + 8] == h[CHKSUM..CHKSUM + 8];
    assert s[SIZE..SIZE + 12] == h[SIZE..SIZE + 12] && s[NAME..] == h[NAME..];
    if h[MAGIC..MAGIC + 6] != USTAR + [0] {
      return Failed(NotUstar);
    } else if h[VERSION] != ZERO || h[VERSION + 1] != ZERO {
      return Failed(BadVersion);
    }
    var chksum := ParseOctal(h, CHKSUM, 8);
    if chksum.None? {
      return Failed(BadChecksumField);
    }
    var sum := Checksum(h);
    if chksum.value != sum {
      return Failed(ChecksumMismatch);
    } else if h[NAME + 99] != 0 || h[PREFIX] != 0 {
      return Failed(NameTooLong);
    } else if h[TYPEFLAG] != REGULAR && h[TYPEFLAG] != DIRECTORY {
      return Failed(BadType);
    }
    var size := 0;
    if h[TYPEFLAG] == REGULAR {
      var field := ParseOctal(h, SIZE, 12);
      if field.None? {
        return Failed(BadSizeField);
      } else if field.value > INT_MAX {
        return Failed(TooLarge);
      }
      size := field.value;
    }
    var name := StripPrefixes(UpToZero(h[NAME..]));
    return Entry(name, h[TYPEFLAG], size);
  }

  lemma {:induction false} SizeFits(size: int)
    ensures 0 <= size % B32 < Pow8(11)
  {
    assert Pow8(4) == 4096;
    assert Pow8(8) == 4096 * 4096;
  }

  /** What a header written here says about itself. */
  lemma {:induction false} HeaderFacts(n: seq<int>, kind: int, size: int)
    requires IsString(n) && |n| <= 99 && 0 < kind < 256
    ensures Sum(Unsummed(n, kind, size), HEADER_SIZE) >= 0
    ensures var h := Header(n, kind, size);
      && Readable(h, n, kind, size)
      && 0 <= Sum(h, HEADER_SIZE) < Pow8(7) && Sum(h, HEADER_SIZE) < B32
      && h[CHKSUM..CHKSUM + 8] == Octal(Sum(h, HEADER_SIZE), 7) + [0]
  {
    var u := Unsummed(n, kind, size);
    UnsummedReadable(n, kind, size);
    SumFits(u);
    var sum := Sum(u, HEADER_SIZE);
    var field := Octal(sum, 7) + [0];
    SumIgnoresField(u, field, HEADER_SIZE);
    hide Overwrite, Octal, Sum, Unsummed, Pow8;
    PutOther(u, CHKSUM, field, n, kind, size);
    hide Readable;
    var h := Overwrite(u, CHKSUM, field);
    assert h[CHKSUM..CHKSUM + 8] == field;
  }

  /** The front part of a header, byte by byte: name, mode, owner, group, size and time. */
  ghost predicate FrontLaid(h: seq<int>, n: seq<int>, kind: int, size: int) {
    && |h| == HEADER_SIZE && |n| <= 99
    && h[0..100] == n + seq(100 - |n|, _ => 0)
    && h[100..108] == [48, 48, 48, 48] + (if kind == REGULAR then [54, 52, 52] else [55, 53, 53]) + [0]
    && h[108..116] == h[116..124] == [48, 48, 48, 48, 48, 48, 48, 0]
    && h[124..136] == Octal(size % B32, 11) + [0]
    && h[136..148] == [49, 48, 51, 53, 53, 55, 48, 54, 48, 48, 48, 0]
  }

  /** The rest after the checksum: type, link name, magic, version, user, group, and zeros. */
  ghost predicate RestLaid(h: seq<int>, kind: int) {
    && |h| == HEADER_SIZE && h[156] == kind && h[157..257] == seq(100, _ => 0)
    && h[257..265] == [117, 115, 116, 97, 114, 0, 48, 48]
    && h[265..297] == h[297..329] == [114, 111, 111, 116] + seq(28, _ => 0)
    && h[329..512] == seq(183, _ => 0)
  }

  lemma {:induction false} OctalModes()
    ensures Octal(420, 7) == [48, 48, 48, 48, 54, 52, 52] && Octal(493, 7) == [48, 48, 48, 48, 55, 53, 53]
  {
    assert Octal(0, 4) == [48, 48, 48, 48] by { assert Octal(0, 2) == [48, 48]; }
    assert Octal(6, 5) == [48, 48, 48, 48, 54] && Octal(7, 5) == [48, 48, 48, 48, 55];
  }

  lemma {:induction false} OctalTime()
    ensures Octal(BUILD_TIME, 11) == [49, 48, 51, 53, 53, 55, 48, 54, 48, 48, 48]
  {
    assert Octal(8, 2) == [49, 48];
    assert Octal(541, 4) == [49, 48, 51, 53];
    assert Octal(34671, 6) == [49, 48, 51, 53, 53, 55];
    assert Octal(2218950, 8) == [49, 48, 51, 53, 53, 55, 48, 54];
    assert Octal(142012800, 10) == [49, 48, 51, 53, 53, 55, 48, 54, 48, 48];
  }

  lemma {:induction false} FrontIs(n: seq<int>, kind: int, size: int)
    requires |n| <= 99
    ensures FrontLaid(Front(n, kind, size), n, kind, size)
    ensures forall i | 148 <= i < HEADER_SIZE :: Front(n, kind, size)[i] == 0
  {
    OctalModes();
    OctalTime();
    hide Overwrite, Octal;
    var h := Front(n, kind, size);
    assert h[0..100] == n + seq(100 - |n|, _ => 0);
    assert h[100..108] == Octal(if kind == REGULAR then 420 else 493, 7) + [0];
    assert h[108..116] == [48, 48, 48, 48, 48, 48, 48, 0] && h[116..124] == [48, 48, 48, 48, 48, 48, 48, 0];
    assert h[124..136] == Octal(size % B32, 11) + [0];
    assert h[136..148] == Octal(BUILD_TIME, 11) + [0];
  }

  lemma {:induction false} RestIs(n: seq<int>, kind: int, size: int)
    requires |n| <= 99
    ensures var h := Unsummed(n, kind, size); FrontLaid(h, n, kind, size) && RestLaid(h, kind)
  {
    FrontIs(n, kind, size);
    hide Overwrite, Octal, Front;
    var f, h := Front(n, kind, size), Unsummed(n, kind, size);
    SameFront(f, h, n, kind, size);
    hide FrontLaid;
    assert h[157..257] == seq(100, _ => 0) && h[329..512] == seq(183, _ => 0);
    assert h[257..265] == [117, 115, 116, 97, 114, 0, 48, 48];
    assert h[265..297] == [114, 111, 111, 116] + seq(28, _ => 0);
    assert h[297..329] == [114, 111, 111, 116] + seq(28, _ => 0);
  }

  lemma {:induction false} SameFront(f: seq<int>, h: seq<int>, n: seq<int>, kind: int, size: int)
    requires FrontLaid(f, n, kind, size) && |h| == |f| && forall i | 0 <= i < 148 :: h[i] == f[i]
    ensures FrontLaid(h, n, kind, size)
  {
    hide Octal;
    assert h[0..100] == f[0..100] && h[100..108] == f[100..108] && h[108..116] == f[108..116];
    assert h[116..124] == f[116..124] && h[124..136] == f[124..136] && h[136..148] == f[136..148];
  }

  lemma {:induction false} SameRest(f: seq<int>, h: seq<int>, kind: int)
    requires RestLaid(f, kind) && |h| == |f| && forall i | 156 <= i < HEADER_SIZE :: h[i] == f[i]
    ensures RestLaid(h, kind)
  {
    assert h[157..257] == f[157..257] && h[257..265] == f[257..265] && h[265..297] == f[265..297];
    assert h[297..329] == f[297..329] && h[329..512] == f[329..512];
  }

  /** A header written here, byte by byte, as the format lays it out; its checksum is that of the header it is in. */
  lemma {:induction false} HeaderLayout(h: seq<int>, n: seq<int>, kind: int, size: int)
    requires IsString(n) && |n| <= 99 && 0 < kind < 256
    requires Sum(Unsummed(n, kind, size), HEADER_SIZE) >= 0 && h == Header(n, kind, size)
    ensures FrontLaid(h, n, kind, size) && RestLaid(h, kind)
    ensures 0 <= Sum(h, HEADER_SIZE) < Pow8(7) && h[148..156] == Octal(Sum(h, HEADER_SIZE), 7) + [0]
  {
    hide Overwrite, Octal, Sum, Unsummed, FrontLaid, RestLaid, Readable, Pow8;
    HeaderFacts(n, kind, size);
    RestIs(n, kind, size);
    SameFront(Unsummed(n, kind, size), h, n, kind, size);
    SameRest(Unsummed(n, kind, size), h, kind);
  }

  /** A header with a right checksum is parsed to what its fields say. */
  lemma {:induction false} ParseReadable(h: seq<int>, n: seq<int>, kind: int, size: int)
    requires Readable(h, n, kind, size) && IsString(n) && Strip(n) == n
    requires 0 <= Sum(h, HEADER_SIZE) < Pow8(7) && Sum(h, HEADER_SIZE) < B32
    requires h[CHKSUM..CHKSUM + 8] == Octal(Sum(h, HEADER_SIZE), 7) + [0]
    requires kind == REGULAR || kind == DIRECTORY
    ensures Parse(h) ==
      if kind == DIRECTORY then Entry(n, kind, 0)
      else if size % B32 <= INT_MAX then Entry(n, kind, size % B32)
      else Failed(TooLarge)
  {
    OctalRoundTrip(Sum(h, HEADER_SIZE), 7);
    SizeFits(size);
    OctalRoundTrip(size % B32, 11);
    hide Octal, Sum, ParseFrom, Strip, UpToZero, Pow8;
    assert h[NAME..][..|n|] == n;
    ReadString(h[NAME..], n);
  }

  /** The header of a file is read back: its stripped name, its type, and its size, which only a file of negative size
      loses. */
  lemma {:induction false} RoundTrip(name: seq<int>, kind: int, size: int)
    requires IsString(name) && |Strip(name)| <= 99 && (kind == REGULAR || kind == DIRECTORY)
    requires -INT_MAX - 1 <= size <= INT_MAX
    ensures Sum(Unsummed(Strip(name), kind, size), HEADER_SIZE) >= 0
    ensures Parse(Header(Strip(name), kind, size)) ==
      if kind == DIRECTORY then Entry(Strip(name), kind, 0)
      else if size >= 0 then Entry(Strip(name), kind, size)
      else Failed(TooLarge)
  {
    var n := Strip(name);
    StripSafe(name);
    StripTwice(name);
    hide Octal, Sum, Strip, Parse, Header, Unsummed, Readable, Pow8;
    HeaderFacts(n, kind, size);
    ParseReadable(Header(n, kind, size), n, kind, size);
  }
}
