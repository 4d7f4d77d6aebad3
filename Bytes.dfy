/**
 * Bytes as the two format modules handle them: unsigned chars, C strings
 * (modelled by the bytes before their terminating NUL) and the few string
 * routines of the C library they call.
 */
module Bytes {
  import opened Wrappers

  type byte = b: int | 0 <= b < 256

  const NUL: byte := 0
  const SPACE: byte := ' ' as byte
  const HASH: byte := '#' as byte
  const RBRACE: byte := '}' as byte

  /** The longest candidate plaintext both formats take (a buffer of PLAINTEXT_LENGTH + 1 bytes). */
  const PLAINTEXT_LENGTH: nat := 125

  /** The contents of a C string: no byte before the terminator is NUL. */
  predicate IsCString(s: seq<byte>) {
    forall i | 0 <= i < |s| :: s[i] != NUL
  }

  /** A candidate plaintext: a C string of at most PLAINTEXT_LENGTH bytes. */
  predicate IsCandidate(key: seq<byte>) {
    |key| <= PLAINTEXT_LENGTH && IsCString(key)
  }

  function Zeros(n: nat): (z: seq<byte>)
    ensures |z| == n && forall i | 0 <= i < n :: z[i] == 0
  {
    if n == 0 then [] else [0] + Zeros(n - 1)
  }

  function Repeat(c: byte, n: nat): (r: seq<byte>)
    ensures |r| == n && forall i | 0 <= i < n :: r[i] == c
  {
    if n == 0 then [] else [c] + Repeat(c, n - 1)
  }

  /** `k + |w| <= |t|` and `t` holds `w` at offset `k` (strncmp(&t[k], w, |w|) == 0). */
  predicate HasAt(t: seq<byte>, k: nat, w: seq<byte>) {
    k + |w| <= |t| && t[k..k + |w|] == w
  }

  /**
   * Index of the first `x` in `s`, or `|s|` when there is none: where a
   * `while (*p != x) p++` scan stops, and strchr's answer when it finds one.
   */
  function Find(s: seq<byte>, x: byte): (r: nat)
    ensures r <= |s|
    ensures r < |s| ==> s[r] == x
    ensures r == |s| <==> x !in s
    ensures x !in s[..r]
  {
    if s == [] then 0
    else if s[0] == x then 0
    else
      var r := 1 + Find(s[1..], x);
      assert s[..r] == [s[0]] + s[1..][..r - 1];
      r
  }

  /** Length of the leading run of `d` bytes. */
  function SkipRun(s: seq<byte>, d: byte): (n: nat)
    ensures n <= |s| && forall i | 0 <= i < n :: s[i] == d
    ensures n < |s| ==> s[n] != d
  {
    if s != [] && s[0] == d then 1 + SkipRun(s[1..], d) else 0
  }

  /** The run is exactly `n` long when `n` bytes of `d` are followed by another byte or the end. */
  lemma SkipRunIs(s: seq<byte>, d: byte, n: nat)
    requires n <= |s| && forall i | 0 <= i < n :: s[i] == d
    requires n < |s| ==> s[n] != d
    ensures SkipRun(s, d) == n
  {
  }

  /** strrchr: the index of the last `x` in `s`, if any. */
  function LastIndex(s: seq<byte>, x: byte): (r: Option<nat>)
    ensures r.None? <==> x !in s
    ensures r.Some? ==> r.value < |s| && s[r.value] == x && x !in s[r.value + 1..]
  {
    if s == [] then None
    else if s[|s| - 1] == x then Some(|s| - 1)
    else
      var r := LastIndex(s[..|s| - 1], x);
      assert r.Some? ==> s[r.value + 1..] == s[..|s| - 1][r.value + 1..] + [s[|s| - 1]];
      r
  }

  /** The last `x` in `s` is at `k` when `s[k]` is one and none follows it. */
  lemma {:induction false} LastIndexAt(s: seq<byte>, x: byte, k: nat)
    requires k < |s| && s[k] == x && x !in s[k + 1..]
    ensures LastIndex(s, x) == Some(k)
    decreases |s|
  {
    if k < |s| - 1 {
      var init := s[..|s| - 1];
      assert s[|s| - 1] == s[k + 1..][|s| - 2 - k];
      assert init[k + 1..] == s[k + 1..|s| - 1];
      LastIndexAt(init, x, k);
    }
  }

  /** strlen over a fixed buffer: the index of its first NUL, or None when the buffer has none. */
  function CStrLen(buf: seq<byte>): (r: Option<nat>)
    ensures r.None? <==> NUL !in buf
    ensures r.Some? ==> r.value < |buf| && buf[r.value] == NUL && IsCString(buf[..r.value])
  {
    if NUL in buf then Some(Find(buf, NUL)) else None
  }

  /** A prefix of `a` is the same prefix of `a + b`. */
  lemma PrefixOfAppend(a: seq<byte>, b: seq<byte>, n: nat)
    requires n <= |a|
    ensures (a + b)[..n] == a[..n]
  {
    assert forall i | 0 <= i < n :: (a + b)[..n][i] == a[..n][i];
  }

  /** memcpy of `d` into `a` at `off`: those bytes become `d`, the others stay. */
  method CopyInto(a: array<byte>, off: nat, d: seq<byte>)
    requires off + |d| <= a.Length
    modifies a
    ensures a[..off] == old(a[..off]) && a[off..off + |d|] == d
    ensures a[off + |d|..] == old(a[off + |d|..])
  {
    forall i | 0 <= i < |d| {
      a[off + i] := d[i];
    }
  }

  /** memset of `a` to `c`. */
  method Fill(a: array<byte>, c: byte)
    modifies a
    ensures a[..] == Repeat(c, a.Length)
  {
    forall i | 0 <= i < a.Length {
      a[i] := c;
    }
  }

  /** tolower in the C locale. */
  function ToLower(c: byte): byte {
    if 'A' as byte <= c <= 'Z' as byte then c + 32 else c
  }

  /** strlwr: every byte through ToLower. */
  function LowerAll(s: seq<byte>): (r: seq<byte>)
    ensures |r| == |s| && forall i | 0 <= i < |s| :: r[i] == ToLower(s[i])
  {
    seq(|s|, i requires 0 <= i < |s| => ToLower(s[i]))
  }

  lemma {:induction false} LowerAllIdempotent(s: seq<byte>)
    ensures LowerAll(LowerAll(s)) == LowerAll(s)
  {
  }

  lemma LowerAllDistributes(a: seq<byte>, b: seq<byte>)
    ensures LowerAll(a + b) == LowerAll(a) + LowerAll(b)
  {
    assert forall i | 0 <= i < |a + b| :: LowerAll(a + b)[i] == (LowerAll(a) + LowerAll(b))[i];
  }

  /** ToLower maps `#` to itself and nothing else to `#`. */
  lemma LowerKeepsHash(s: seq<byte>)
    ensures (HASH in LowerAll(s)) <==> (HASH in s)
    ensures LastIndex(LowerAll(s), HASH) == LastIndex(s, HASH)
  {
    if s != [] {
      var init := s[..|s| - 1];
      assert LowerAll(s)[..|s| - 1] == LowerAll(init);
      LowerKeepsHash(init);
      assert s == init + [s[|s| - 1]];
      assert LowerAll(s) == LowerAll(init) + [ToLower(s[|s| - 1])];
    }
  }

  function Xor(a: byte, b: byte): byte {
    ((a as bv8) ^ (b as bv8)) as int
  }

  /**
   * The first four bytes read as one 32-bit word (`*(ARCH_WORD_32*)p`),
   * in little-endian host order.
   */
  function Word0(b: seq<byte>): (w: nat)
    requires |b| >= 4
    ensures w < 0x1_0000_0000
  {
    b[0] as int + 0x100 * (b[1] as int) + 0x1_0000 * (b[2] as int) + 0x100_0000 * (b[3] as int)
  }
}
