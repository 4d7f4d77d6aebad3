/**
 * Unsigned decimal text: the isdecu test, the "%u" conversion of sscanf,
 * and the canonical rendering of a count.
 */
module Decimal {
  import opened Wrappers
  import opened Bytes

  const ZERO: byte := '0' as byte
  /** One more than the largest unsigned 32-bit value. */
  const U32: nat := 0x1_0000_0000

  predicate IsDigit(c: byte) {
    '0' as byte <= c <= '9' as byte
  }

  predicate AllDigits(s: seq<byte>) {
    forall i | 0 <= i < |s| :: IsDigit(s[i])
  }

  /** The value of a string of digits, most significant first. */
  function Value(s: seq<byte>): nat
    requires AllDigits(s)
  {
    if s == [] then 0 else 10 * Value(s[..|s| - 1]) + (s[|s| - 1] - ZERO)
  }

  /**
   * isdecu: `s` is an unsigned 32-bit value written canonically, that is
   * as "%u" would print it: digits only, no leading zero unless it is "0".
   */
  predicate IsDecU(s: seq<byte>) {
    && |s| > 0
    && AllDigits(s)
    && (|s| == 1 || s[0] != ZERO)
    && Value(s) < U32
  }

  /** The digits of `v` as "%u" prints them. */
  function Render(v: nat): (s: seq<byte>)
    ensures |s| > 0 && AllDigits(s) && (|s| == 1 || s[0] != ZERO)
  {
    if v < 10 then [ZERO + v] else Render(v / 10) + [ZERO + v % 10]
  }

  lemma {:induction false} ValueOfRender(v: nat)
    ensures Value(Render(v)) == v
  {
    if v >= 10 {
      var s := Render(v);
      assert s[..|s| - 1] == Render(v / 10);
      ValueOfRender(v / 10);
    }
  }

  /** Every 32-bit count renders to text isdecu accepts, and reads back as itself. */
  lemma RenderIsDecU(v: nat)
    requires v < U32
    ensures IsDecU(Render(v)) && Value(Render(v)) == v
  {
    ValueOfRender(v);
  }

  /** isspace in the C locale. */
  predicate IsSpace(c: byte) {
    c == SPACE || 9 <= c <= 13
  }

  /** Length of the leading run of bytes satisfying isspace. */
  function SpaceRun(s: seq<byte>): (n: nat)
    ensures n <= |s| && forall i | 0 <= i < n :: IsSpace(s[i])
    ensures n < |s| ==> !IsSpace(s[n])
  {
    if s != [] && IsSpace(s[0]) then 1 + SpaceRun(s[1..]) else 0
  }

  /** Length of the leading run of digits. */
  function DigitRun(s: seq<byte>): (n: nat)
    ensures n <= |s| && AllDigits(s[..n])
    ensures n < |s| ==> !IsDigit(s[n])
  {
    if s != [] && IsDigit(s[0]) then
      var n := 1 + DigitRun(s[1..]);
      assert s[..n] == [s[0]] + s[1..][..n - 1];
      n
    else 0
  }

  /**
   * sscanf(s, "%u", &x): skips white space, takes an optional sign and the
   * digits after it; None when no digit follows (x is then left unassigned).
   * A '-' negates modulo 2^32, as the C conversion does.
   */
  function ScanU(s: seq<byte>): (r: Option<nat>)
    ensures r.Some? ==> r.value < U32
  {
    var w := SpaceRun(s);
    var t := s[w..];
    var neg := t != [] && t[0] == '-' as byte;
    var u := if t != [] && (t[0] == '+' as byte || t[0] == '-' as byte) then t[1..] else t;
    var n := DigitRun(u);
    if n == 0 then None
    else
      var v := Value(u[..n]) % U32;
      Some(if neg then (U32 - v) % U32 else v)
  }

  /** sscanf "%u" converts nothing exactly when no digit follows the white space and an optional sign. */
  lemma ScanUNone(s: seq<byte>)
    ensures var t := s[SpaceRun(s)..];
      ScanU(s).None? <==>
        && !(t != [] && IsDigit(t[0]))
        && !(|t| >= 2 && (t[0] == '+' as byte || t[0] == '-' as byte) && IsDigit(t[1]))
  {
    var t := s[SpaceRun(s)..];
    var u := if t != [] && (t[0] == '+' as byte || t[0] == '-' as byte) then t[1..] else t;
    var n := DigitRun(u);
    if n > 0 {
      assert u[..n][0] == u[0];
    }
    assert |t| >= 2 && u == t[1..] ==> u[0] == t[1];
  }

  /** A canonical count followed by a non-digit is read back exactly. */
  lemma ScanUOfDecU(d: seq<byte>, rest: seq<byte>)
    requires IsDecU(d)
    requires rest == [] || !IsDigit(rest[0])
    ensures ScanU(d + rest) == Some(Value(d))
  {
    var s := d + rest;
    assert !IsSpace(s[0]);
    assert SpaceRun(s) == 0;
    assert s[0] != '+' as byte && s[0] != '-' as byte;
    DigitRunOfPrefix(d, rest);
    assert s[..|d|] == d;
  }

  lemma DigitRunOfPrefix(d: seq<byte>, rest: seq<byte>)
    requires AllDigits(d)
    requires rest == [] || !IsDigit(rest[0])
    ensures DigitRun(d + rest) == |d|
  {
    var s := d + rest;
    assert forall i | 0 <= i < |d| :: s[i] == d[i];
    assert |d| < |s| ==> s[|d|] == rest[0];
  }

  /** No conversion happens on text that starts with a byte other than space, sign or digit. */
  lemma ScanUFails(s: seq<byte>)
    requires s != [] && !IsSpace(s[0]) && !IsDigit(s[0])
    requires s[0] != '+' as byte && s[0] != '-' as byte
    ensures ScanU(s) == None
  {
    assert SpaceRun(s) == 0;
  }

  /** Canonical decimal text contains no `}` and no space. */
  lemma DigitsAreNotDelimiters(s: seq<byte>)
    requires AllDigits(s)
    ensures RBRACE !in s && SPACE !in s
  {
  }
}
