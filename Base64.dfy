/**
 * MIME base64 (the alphabet of section 4 of RFC 4648) as the SAP-H format
 * uses it: a validity length, a decoder that reads the leading run of
 * alphabet characters, and the padded encoder that writes records.
 */
module Base64 {
  import opened Bytes

  const PAD: byte := '=' as byte

  predicate IsAlphabet(c: byte) {
    || 'A' as byte <= c <= 'Z' as byte
    || 'a' as byte <= c <= 'z' as byte
    || '0' as byte <= c <= '9' as byte
    || c == '+' as byte
    || c == '/' as byte
  }

  predicate AllAlphabet(s: seq<byte>) {
    forall i | 0 <= i < |s| :: IsAlphabet(s[i])
  }

  /** The 6-bit value a character of the alphabet stands for. */
  function Sextet(c: byte): (v: nat)
    requires IsAlphabet(c)
    ensures v < 64
  {
    if 'A' as byte <= c <= 'Z' as byte then c - 'A' as byte
    else if 'a' as byte <= c <= 'z' as byte then c - 'a' as byte + 26
    else if '0' as byte <= c <= '9' as byte then c - '0' as byte + 52
    else if c == '+' as byte then 62
    else 63
  }

  /** The character standing for a 6-bit value. */
  function Char(v: nat): (c: byte)
    requires v < 64
    ensures IsAlphabet(c) && Sextet(c) == v
  {
    if v < 26 then 'A' as byte + v
    else if v < 52 then 'a' as byte + (v - 26)
    else if v < 62 then '0' as byte + (v - 52)
    else if v == 62 then '+' as byte
    else '/' as byte
  }

  /** Length of the leading run of alphabet characters. */
  function AlphabetRun(s: seq<byte>): (n: nat)
    ensures n <= |s| && AllAlphabet(s[..n])
    ensures n < |s| ==> !IsAlphabet(s[n])
  {
    if s != [] && IsAlphabet(s[0]) then
      var n := 1 + AlphabetRun(s[1..]);
      assert s[..n] == [s[0]] + s[1..][..n - 1];
      n
    else 0
  }

  /**
   * base64_valid_length with the MIME alphabet and trailing '=' counted:
   * the alphabet run and the '=' characters that follow it.
   */
  function ValidLength(s: seq<byte>): (n: nat)
    ensures n <= |s|
  {
    var a := AlphabetRun(s);
    a + SkipRun(s[a..], PAD)
  }

  /** Text that ValidLength covers entirely. */
  predicate IsToken(s: seq<byte>) {
    ValidLength(s) == |s|
  }

  /** Decodes characters of the alphabet, four characters to three bytes; a final 2 or 3 give 1 or 2 bytes. */
  function DecodeRun(cs: seq<byte>): (r: seq<byte>)
    requires AllAlphabet(cs)
    decreases |cs|
  {
    if |cs| < 2 then []
    else
      var v0, v1 := Sextet(cs[0]), Sextet(cs[1]);
      var b0: byte := v0 * 4 + v1 / 16;
      if |cs| == 2 then [b0]
      else
        var v2 := Sextet(cs[2]);
        var b1: byte := (v1 % 16) * 16 + v2 / 4;
        if |cs| == 3 then [b0, b1]
        else
          var v3 := Sextet(cs[3]);
          var b2: byte := (v2 % 4) * 64 + v3;
          [b0, b1, b2] + DecodeRun(cs[4..])
  }

  /** Four characters give three bytes; a final two or three give one or two. */
  lemma {:induction false} DecodeRunLength(cs: seq<byte>)
    requires AllAlphabet(cs)
    ensures |DecodeRun(cs)| == 3 * (|cs| / 4) + (if |cs| % 4 == 0 then 0 else |cs| % 4 - 1)
    decreases |cs|
  {
    if |cs| >= 4 {
      DecodeRunLength(cs[4..]);
    }
  }

  /**
   * base64_convert from MIME to raw bytes: decodes the leading run of
   * alphabet characters; '=' padding, and whatever follows, ends it.
   */
  function Decode(s: seq<byte>): seq<byte> {
    DecodeRun(s[..AlphabetRun(s)])
  }

  /** The four characters of the three bytes `a`, `b`, `c`, six bits each. */
  function Quad(a: byte, b: byte, c: byte): (q: seq<byte>)
    ensures |q| == 4 && AllAlphabet(q)
  {
    [Char(a / 4), Char((a % 4) * 16 + b / 16), Char((b % 16) * 4 + c / 64), Char(c % 64)]
  }

  /** The characters of the encoding of `b`, without padding. */
  function EncodeChars(b: seq<byte>): (cs: seq<byte>)
    ensures AllAlphabet(cs)
  {
    if |b| == 0 then []
    else if |b| == 1 then Quad(b[0], 0, 0)[..2]
    else if |b| == 2 then Quad(b[0], b[1], 0)[..3]
    else Quad(b[0], b[1], b[2]) + EncodeChars(b[3..])
  }

  /** Three bytes give four characters; a final one or two give two or three. */
  lemma {:induction false} EncodeCharsLength(b: seq<byte>)
    ensures |EncodeChars(b)| == 4 * (|b| / 3) + (if |b| % 3 == 0 then 0 else |b| % 3 + 1)
    decreases |b|
  {
    if |b| >= 3 {
      EncodeCharsLength(b[3..]);
    }
  }

  /** Standard base64 with '=' padding to a multiple of four characters. */
  function Encode(b: seq<byte>): seq<byte> {
    EncodeChars(b) + Repeat(PAD, (3 - |b| % 3) % 3)
  }

  /** Decoding undoes the unpadded encoding. */
  lemma {:induction false} DecodeRunEncodeChars(b: seq<byte>)
    ensures DecodeRun(EncodeChars(b)) == b
    decreases |b|
  {
    if |b| >= 3 {
      DecodeRunEncodeChars(b[3..]);
      QuadDecodes(b[0], b[1], b[2], EncodeChars(b[3..]));
      FirstThree(b);
    } else if |b| == 2 {
      TwoByteQuadDecodes(b[0], b[1]);
    } else if |b| == 1 {
      OneByteQuadDecodes(b[0]);
    }
  }

  lemma FirstThree(b: seq<byte>)
    requires |b| >= 3
    ensures b == [b[0], b[1], b[2]] + b[3..]
  {
  }

  /** A group's four characters decode to its three bytes, ahead of whatever follows. */
  lemma QuadDecodes(a: byte, b: byte, c: byte, rest: seq<byte>)
    requires AllAlphabet(rest)
    ensures AllAlphabet(Quad(a, b, c) + rest)
    ensures DecodeRun(Quad(a, b, c) + rest) == [a, b, c] + DecodeRun(rest)
  {
    var q := Quad(a, b, c);
    var cs := q + rest;
    assert cs[0] == q[0] && cs[1] == q[1] && cs[2] == q[2] && cs[3] == q[3];
    assert cs[4..] == rest;
    GroupRoundTrip(a, b, c, Sextet(q[0]), Sextet(q[1]), Sextet(q[2]), Sextet(q[3]));
  }

  /** The first two characters of a group decode to its first byte. */
  lemma OneByteQuadDecodes(a: byte)
    ensures DecodeRun(Quad(a, 0, 0)[..2]) == [a]
  {
    var q := Quad(a, 0, 0);
    var cs := q[..2];
    assert cs[0] == q[0] && cs[1] == q[1];
    GroupRoundTrip(a, 0, 0, Sextet(q[0]), Sextet(q[1]), Sextet(q[2]), Sextet(q[3]));
  }

  /** The first three characters of a group decode to its first two bytes. */
  lemma TwoByteQuadDecodes(a: byte, b: byte)
    ensures DecodeRun(Quad(a, b, 0)[..3]) == [a, b]
  {
    var q := Quad(a, b, 0);
    var cs := q[..3];
    assert cs[0] == q[0] && cs[1] == q[1] && cs[2] == q[2];
    GroupRoundTrip(a, b, 0, Sextet(q[0]), Sextet(q[1]), Sextet(q[2]), Sextet(q[3]));
  }

  /** Regrouping three bytes into four sextets and back gives the bytes again. */
  lemma GroupRoundTrip(a: byte, b: byte, c: byte, v0: nat, v1: nat, v2: nat, v3: nat)
    requires v0 == a / 4 && v1 == (a % 4) * 16 + b / 16
    requires v2 == (b % 16) * 4 + c / 64 && v3 == c % 64
    ensures v0 * 4 + v1 / 16 == a
    ensures (v1 % 16) * 16 + v2 / 4 == b
    ensures (v2 % 4) * 64 + v3 == c
  {
  }

  /** The alphabet run of text that stops at `n` is `n` long. */
  /** Text that starts outside the alphabet decodes to nothing. */
  lemma DecodeStopsAt(s: seq<byte>)
    requires s != [] && !IsAlphabet(s[0])
    ensures Decode(s) == []
  {
    assert AlphabetRun(s) == 0;
  }

  lemma AlphabetRunIs(s: seq<byte>, n: nat)
    requires n <= |s| && AllAlphabet(s[..n])
    requires n < |s| ==> !IsAlphabet(s[n])
    ensures AlphabetRun(s) == n
  {
    assert forall i | 0 <= i < n :: IsAlphabet(s[i]) by {
      forall i | 0 <= i < n ensures IsAlphabet(s[i]) {
        assert s[..n][i] == s[i];
      }
    }
    var m := AlphabetRun(s);
    assert forall i | 0 <= i < m :: IsAlphabet(s[i]) by {
      forall i | 0 <= i < m ensures IsAlphabet(s[i]) {
        assert s[..m][i] == s[i];
      }
    }
  }

  /**
   * Round trip: the padded encoding of any bytes is a whole valid token,
   * and decodes to those bytes.
   */
  lemma DecodeEncode(b: seq<byte>)
    ensures IsToken(Encode(b))
    ensures Decode(Encode(b)) == b
  {
    var cs := EncodeChars(b);
    var e := Encode(b);
    assert e[..|cs|] == cs;
    AlphabetRunIs(e, |cs|);
    assert e[|cs|..] == Repeat(PAD, (3 - |b| % 3) % 3);
    SkipRunIs(e[|cs|..], PAD, (3 - |b| % 3) % 3);
    DecodeRunEncodeChars(b);
  }

  /** A whole token holds only alphabet characters and '='. */
  lemma TokenBytes(s: seq<byte>)
    requires IsToken(s)
    ensures forall i | 0 <= i < |s| :: IsAlphabet(s[i]) || s[i] == PAD
    ensures SPACE !in s && RBRACE !in s
  {
    var a := AlphabetRun(s);
    forall i | 0 <= i < |s|
      ensures IsAlphabet(s[i]) || s[i] == PAD
    {
      if i < a {
        assert s[..a][i] == s[i];
      } else {
        assert s[a..][i - a] == s[i];
      }
    }
  }

  /**
   * What follows a whole token, when it does not start with an alphabet
   * character, changes neither its validity nor its decoding.
   */
  lemma TokenThenTail(tok: seq<byte>, tail: seq<byte>)
    requires IsToken(tok)
    requires tail == [] || !IsAlphabet(tail[0])
    ensures AlphabetRun(tok + tail) == AlphabetRun(tok)
    ensures Decode(tok + tail) == Decode(tok)
  {
    var a := AlphabetRun(tok);
    var s := tok + tail;
    assert s[..a] == tok[..a];
    AlphabetRunIs(s, a);
  }

  /** Encoding does not produce an empty token from non-empty bytes. */
  lemma EncodeNonEmpty(b: seq<byte>)
    requires |b| > 0
    ensures |Encode(b)| > 0 && IsAlphabet(Encode(b)[0])
  {
  }
}
