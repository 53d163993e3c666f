/** What several modules share. */
module Basics {
  const B31: int := 0x8000_0000
  const B32: int := 0x1_0000_0000
  const B64: int := 0x1_0000_0000_0000_0000
  const PGSIZE: int := 4096

  datatype Option<+T> = None | Some(value: T)

  predicate IsWord(x: int) {
    0 <= x < B32
  }

  ghost predicate Distinct<T>(s: seq<T>) {
    forall i, j | 0 <= i < j < |s| :: s[i] != s[j]
  }

  /** `f` with `data` in place of its bytes from `at` on. */
  function Overwrite(f: seq<int>, at: int, data: seq<int>): (r: seq<int>)
    requires 0 <= at && at + |data| <= |f|
    ensures |r| == |f| && forall i | 0 <= i < |f| :: r[i] == if at <= i < at + |data| then data[i - at] else f[i]
  {
    f[..at] + data + f[at + |data|..]
  }

  /** The C string that begins a sequence of bytes. */
  function UpToZero(s: seq<int>): (r: seq<int>)
    ensures |r| <= |s|
  {
    if s == [] || s[0] == 0 then [] else [s[0]] + UpToZero(s[1..])
  }

  lemma {:induction false} ReadString(s: seq<int>, name: seq<int>)
    requires |name| < |s| && s[..|name|] == name && s[|name|] == 0 && forall i | 0 <= i < |name| :: name[i] != 0
    ensures UpToZero(s) == name
    decreases |name|
  {
    if name != [] {
      assert s[0] == name[0];
      assert s[1..][..|name| - 1] == name[1..];
      ReadString(s[1..], name[1..]);
    }
  }

  function Pow8(n: nat): (p: nat)
    ensures p >= 1
  {
    if n == 0 then 1 else 8 * Pow8(n - 1)
  }

  lemma {:induction false} MulMono(a: int, b: int, c: int)
    requires a <= b && c >= 0
    ensures a * c <= b * c
  {
  }
}
