/**
 * HMAC-SHA1 records, `salt#hexdigest`, as the scalar build of the format
 * handles them: record validation, the canonical split, hex decoding of
 * the stored digest, the 64-byte salt buffer, the key schedule and the
 * two-pass digest of section 2 of RFC 2104, the comparators and the
 * hash-table masks.
 */
module HmacSha1 {
  import opened Wrappers
  import opened Bytes
  import opened Sha

  /** One SHA-1 block: the length of ipad, opad and the salt buffer. */
  const PAD_SIZE: nat := 64
  const BINARY_SIZE: nat := 20
  const SALT_SIZE: nat := PAD_SIZE
  /** The longest record: a full salt, '#' and 40 hex digits. */
  const CIPHERTEXT_LENGTH: nat := SALT_SIZE + 1 + BINARY_SIZE * 2
  const IPAD: byte := 0x36
  const OPAD: byte := 0x5C

  // ---------------------------------------------------------------------
  // Hex digits.

  predicate IsHexDigit(c: byte) {
    || '0' as byte <= c <= '9' as byte
    || 'a' as byte <= c <= 'f' as byte
    || 'A' as byte <= c <= 'F' as byte
  }

  predicate AllHex(s: seq<byte>) {
    forall i | 0 <= i < |s| :: IsHexDigit(s[i])
  }

  /** atoi16 on a hex digit of either case. */
  function HexValue(c: byte): (v: nat)
    requires IsHexDigit(c)
    ensures v < 16
  {
    if c <= '9' as byte then c - '0' as byte
    else if c <= 'F' as byte then c - 'A' as byte + 10
    else c - 'a' as byte + 10
  }

  /** The lower-case digit of a value below 16. */
  function HexChar(v: nat): (c: byte)
    requires v < 16
    ensures IsHexDigit(c) && HexValue(c) == v && ToLower(c) == c
  {
    if v < 10 then '0' as byte + v else 'a' as byte + (v - 10)
  }

  /** A hex digit's value does not depend on its case. */
  lemma HexDigitLower(c: byte)
    requires IsHexDigit(c)
    ensures IsHexDigit(ToLower(c)) && HexChar(HexValue(c)) == ToLower(c)
  {
  }

  /** Hex digits are neither '#' nor NUL. */
  lemma HexIsNotSeparator(s: seq<byte>)
    requires AllHex(s)
    ensures HASH !in s && IsCString(s)
  {
    assert forall i | 0 <= i < |s| :: s[i] != HASH && s[i] != NUL;
  }

  /** The byte two hex digits spell, high nibble first. */
  function HexByte(c0: byte, c1: byte): byte
    requires IsHexDigit(c0) && IsHexDigit(c1)
  {
    16 * HexValue(c0) + HexValue(c1)
  }

  /** Two hex digits per byte. */
  function HexDecode(hs: seq<byte>): (b: seq<byte>)
    requires AllHex(hs) && |hs| % 2 == 0
    ensures |b| == |hs| / 2
    decreases |hs|
  {
    if hs == [] then []
    else [HexByte(hs[0], hs[1])] + HexDecode(hs[2..])
  }

  /** Byte `i` of the decoding comes from digits `2i` and `2i + 1`. */
  lemma {:induction false} HexDecodeAt(hs: seq<byte>, i: nat)
    requires AllHex(hs) && |hs| % 2 == 0 && i < |hs| / 2
    ensures HexDecode(hs)[i] == HexByte(hs[2 * i], hs[2 * i + 1])
    decreases i
  {
    if i > 0 {
      HexDecodeAt(hs[2..], i - 1);
      assert hs[2..][2 * (i - 1)] == hs[2 * i];
      assert hs[2..][2 * (i - 1) + 1] == hs[2 * i + 1];
    }
  }

  /** Lower-case hex, two digits per byte. */
  function LowerHex(b: seq<byte>): (hs: seq<byte>)
    ensures |hs| == 2 * |b| && AllHex(hs)
  {
    if b == [] then [] else [HexChar(b[0] / 16), HexChar(b[0] % 16)] + LowerHex(b[1..])
  }

  /** Decoding undoes lower-case hex. */
  lemma {:induction false} HexDecodeLowerHex(b: seq<byte>)
    ensures HexDecode(LowerHex(b)) == b
  {
    if b != [] {
      var hs := LowerHex(b);
      assert hs[2..] == LowerHex(b[1..]);
      HexDecodeLowerHex(b[1..]);
      assert b == [b[0]] + b[1..];
    }
  }

  /** Re-encoding decoded hex gives its digits in lower case. */
  lemma {:induction false} LowerHexHexDecode(hs: seq<byte>)
    requires AllHex(hs) && |hs| % 2 == 0
    ensures LowerHex(HexDecode(hs)) == LowerAll(hs)
    decreases |hs|
  {
    if hs != [] {
      LowerHexHexDecode(hs[2..]);
      PairLowerHex(hs);
      LowerAllPair(hs);
    }
  }

  /** The byte two digits make has them, in lower case, as its digits. */
  lemma PairDigits(c0: byte, c1: byte)
    requires IsHexDigit(c0) && IsHexDigit(c1)
    ensures HexChar(HexByte(c0, c1) / 16) == ToLower(c0)
    ensures HexChar(HexByte(c0, c1) % 16) == ToLower(c1)
  {
    var x, y := HexValue(c0), HexValue(c1);
    assert (16 * x + y) / 16 == x && (16 * x + y) % 16 == y;
    HexDigitLower(c0);
    HexDigitLower(c1);
  }

  /** The first byte's two digits, re-encoded, are those digits in lower case. */
  lemma PairLowerHex(hs: seq<byte>)
    requires AllHex(hs) && |hs| % 2 == 0 && |hs| >= 2
    ensures LowerHex(HexDecode(hs)) == [ToLower(hs[0]), ToLower(hs[1])] + LowerHex(HexDecode(hs[2..]))
  {
    PairDigits(hs[0], hs[1]);
    var v := HexByte(hs[0], hs[1]);
    var rest := HexDecode(hs[2..]);
    assert HexDecode(hs) == [v] + rest;
    LowerHexCons(v, rest);
  }

  lemma LowerHexCons(v: byte, rest: seq<byte>)
    ensures LowerHex([v] + rest) == [HexChar(v / 16), HexChar(v % 16)] + LowerHex(rest)
  {
    assert ([v] + rest)[1..] == rest;
  }

  lemma LowerAllPair(hs: seq<byte>)
    requires |hs| >= 2
    ensures LowerAll(hs) == [ToLower(hs[0]), ToLower(hs[1])] + LowerAll(hs[2..])
  {
    var r := [ToLower(hs[0]), ToLower(hs[1])] + LowerAll(hs[2..]);
    assert forall i | 0 <= i < |hs| :: LowerAll(hs)[i] == r[i];
  }

  /** Lower-casing the digits does not change what they decode to. */
  lemma LowerKeepsHexDecode(hs: seq<byte>)
    requires AllHex(hs) && |hs| % 2 == 0
    ensures AllHex(LowerAll(hs)) && HexDecode(LowerAll(hs)) == HexDecode(hs)
  {
    LowerHexHexDecode(hs);
    HexDecodeLowerHex(HexDecode(hs));
  }

  // ---------------------------------------------------------------------
  // Records: valid, split, binary and salt.

  /** Index of the separating '#', the last one (strrchr). */
  function Sep(t: seq<byte>): (p: nat)
    requires HASH in t
    ensures p < |t| && t[p] == HASH && HASH !in t[p + 1..]
  {
    LastIndex(t, HASH).value
  }

  /** The salt: everything before the last '#', which may itself hold '#'. */
  function SaltText(t: seq<byte>): seq<byte>
    requires HASH in t
  {
    t[..Sep(t)]
  }

  /** The digest's hex digits: everything after the last '#'. */
  function Digits(t: seq<byte>): seq<byte>
    requires HASH in t
  {
    t[Sep(t) + 1..]
  }

  /**
   * valid: a '#' at most SALT_SIZE bytes in, and exactly 40 hex digits of
   * either case after the last one. (The test for a '#' past the last byte
   * never rejects: strrchr finds one at or before it.)
   */
  predicate Valid(t: seq<byte>)
    ensures Valid(t) ==> HasDigest(t) && Sep(t) <= SALT_SIZE && |t| <= CIPHERTEXT_LENGTH
  {
    match LastIndex(t, HASH)
    case None => false
    case Some(p) =>
      && p <= SALT_SIZE
      && |t| - (p + 1) == 2 * BINARY_SIZE
      && AllHex(t[p + 1..])
  }

  /** The text of a record: the salt, '#', and the digest in lower-case hex. */
  function Render(salt: seq<byte>, digest: seq<byte>): seq<byte> {
    salt + [HASH] + LowerHex(digest)
  }

  /** strnzcpy into out[CIPHERTEXT_LENGTH + 1]: at most CIPHERTEXT_LENGTH bytes are kept. */
  function Truncate(t: seq<byte>): (o: seq<byte>)
    ensures |o| <= |t| && |o| <= CIPHERTEXT_LENGTH && o == t[..|o|]
    ensures |t| <= CIPHERTEXT_LENGTH ==> o == t
  {
    if |t| <= CIPHERTEXT_LENGTH then t else t[..CIPHERTEXT_LENGTH]
  }

  /**
   * split: the copy with its last '#' and everything after it in lower
   * case. strlwr(strrchr(out, '#')) needs a '#' in the copy.
   */
  function Split(t: seq<byte>): (r: seq<byte>)
    requires HASH in Truncate(t)
    ensures |r| == |Truncate(t)|
    ensures var q := Sep(Truncate(t)); r[..q] == Truncate(t)[..q] && r[q] == HASH
  {
    var o := Truncate(t);
    var q := Sep(o);
    o[..q] + LowerAll(o[q..])
  }

  /** What binary reads: a '#' and 40 hex digits after the last one. */
  predicate HasDigest(t: seq<byte>) {
    HASH in t && |Digits(t)| >= 2 * BINARY_SIZE && AllHex(Digits(t)[..2 * BINARY_SIZE])
  }

  /** binary: the 20 bytes of the 40 hex digits after the last '#'. */
  function Binary(t: seq<byte>): (b: seq<byte>)
    requires HasDigest(t)
    ensures |b| == BINARY_SIZE
  {
    HexDecode(Digits(t)[..2 * BINARY_SIZE])
  }

  /**
   * salt: a zeroed SALT_SIZE-byte buffer with the bytes before the last '#'
   * copied in; memcpy of that many bytes fits only when there are at most
   * SALT_SIZE of them.
   */
  function SaltBuffer(t: seq<byte>): (s: seq<byte>)
    requires HASH in t && Sep(t) <= SALT_SIZE
    ensures |s| == SALT_SIZE
  {
    SaltText(t) + Zeros(SALT_SIZE - Sep(t))
  }

  /** salt '#' digits, where the digits hold no '#': valid exactly on the salt and digit bounds. */
  lemma ValidParts(salt: seq<byte>, digits: seq<byte>)
    requires HASH !in digits
    ensures var t := salt + [HASH] + digits;
      && HASH in t && Sep(t) == |salt| && SaltText(t) == salt && Digits(t) == digits
      && (Valid(t) <==> |salt| <= SALT_SIZE && |digits| == 2 * BINARY_SIZE && AllHex(digits))
  {
    var t := salt + [HASH] + digits;
    assert t[|salt| + 1..] == digits;
    LastIndexAt(t, HASH, |salt|);
  }

  /** What a valid record is made of. */
  lemma ValidFacts(t: seq<byte>)
    requires Valid(t)
    ensures HASH in t && Sep(t) <= SALT_SIZE && |t| <= CIPHERTEXT_LENGTH
    ensures |Digits(t)| == 2 * BINARY_SIZE && AllHex(Digits(t)) && HASH !in Digits(t)
    ensures HasDigest(t) && Digits(t)[..2 * BINARY_SIZE] == Digits(t)
    ensures t == SaltText(t) + [HASH] + Digits(t)
  {
    HexIsNotSeparator(Digits(t));
    assert t == t[..Sep(t)] + [t[Sep(t)]] + t[Sep(t) + 1..];
  }

  /**
   * split on a valid record: nothing is cut, the digits are put in lower
   * case, and the result is valid with the same salt and binary.
   */
  lemma SplitOfValid(t: seq<byte>)
    requires Valid(t)
    ensures HASH in Truncate(t) && Truncate(t) == t
    ensures Split(t) == SaltText(t) + [HASH] + LowerAll(Digits(t))
    ensures Valid(Split(t)) && Sep(Split(t)) == Sep(t) && SaltText(Split(t)) == SaltText(t)
    ensures Digits(Split(t)) == LowerAll(Digits(t))
    ensures HasDigest(Split(t)) && Binary(Split(t)) == Binary(t)
    ensures SaltBuffer(Split(t)) == SaltBuffer(t)
  {
    SplitShape(t);
    var d := Digits(t);
    LowerKeepsHexDecode(d);
    HexIsNotSeparator(LowerAll(d));
    ValidParts(SaltText(t), LowerAll(d));
    ValidFacts(t);
    ValidFacts(Split(t));
    assert Binary(Split(t)) == HexDecode(LowerAll(d));
  }

  lemma SplitShape(t: seq<byte>)
    requires Valid(t)
    ensures HASH in Truncate(t) && Truncate(t) == t
    ensures Split(t) == SaltText(t) + [HASH] + LowerAll(Digits(t))
  {
    ValidTail(t);
    LowerAfterHash(Digits(t));
  }

  lemma ValidTail(t: seq<byte>)
    requires Valid(t)
    ensures |t| <= CIPHERTEXT_LENGTH && t[Sep(t)..] == [HASH] + Digits(t)
  {
  }

  lemma LowerAfterHash(d: seq<byte>)
    ensures LowerAll([HASH] + d) == [HASH] + LowerAll(d)
  {
    LowerAllDistributes([HASH], d);
    assert LowerAll([HASH]) == [HASH];
  }

  /**
   * split is idempotent on every input it accepts: its output is short
   * enough to be copied whole, has its last '#' in the same place, and is
   * already in lower case from there on.
   */
  lemma SplitIdempotent(t: seq<byte>)
    requires HASH in Truncate(t)
    ensures HASH in Truncate(Split(t)) && Split(Split(t)) == Split(t)
  {
    var o := Truncate(t);
    var q := Sep(o);
    var s := Split(t);
    assert s[q..] == LowerAll(o[q..]);
    assert s[q + 1..] == LowerAll(o[q + 1..]);
    LowerKeepsHash(o[q + 1..]);
    LastIndexAt(s, HASH, q);
    LowerAllIdempotent(o[q..]);
    assert s[..q] == o[..q];
  }

  /** split unifies case: valid records differing only in the case of their digits split alike. */
  lemma SplitUnifiesCase(t: seq<byte>, u: seq<byte>)
    requires Valid(t) && Valid(u)
    requires SaltText(t) == SaltText(u) && LowerAll(Digits(t)) == LowerAll(Digits(u))
    ensures Split(t) == Split(u)
  {
    SplitOfValid(t);
    SplitOfValid(u);
  }

  /** A rendered record is valid, is canonical, and gives back its salt and digest. */
  lemma RenderRoundTrip(salt: seq<byte>, digest: seq<byte>)
    requires |salt| <= SALT_SIZE && |digest| == BINARY_SIZE
    ensures var t := Render(salt, digest);
      && Valid(t) && SaltText(t) == salt && Binary(t) == digest
      && Split(t) == t
  {
    var hs := LowerHex(digest);
    HexIsNotSeparator(hs);
    ValidParts(salt, hs);
    var t := Render(salt, digest);
    ValidFacts(t);
    HexDecodeLowerHex(digest);
    LowerHexHexDecode(hs);
    SplitOfValid(t);
  }

  /** The canonical form of a valid record is the rendering of its salt and binary. */
  lemma SplitIsRender(t: seq<byte>)
    requires Valid(t)
    ensures Split(t) == Render(SaltText(t), Binary(t))
  {
    ValidFacts(t);
    SplitOfValid(t);
    LowerHexHexDecode(Digits(t));
  }

  /** valid: the last '#', the salt bound, the digit count, then each digit in turn. */
  method IsValid(t: seq<byte>) returns (ok: bool)
    ensures ok == Valid(t)
  {
    var found := LastIndex(t, HASH);
    if found.None? {
      return false;
    }
    var p := found.value;
    if p > SALT_SIZE || |t| - (p + 1) != 2 * BINARY_SIZE {
      return false;
    }
    var i := p + 1;
    while i < |t|
      invariant p + 1 <= i <= |t|
      invariant AllHex(t[p + 1..i])
    {
      if !IsHexDigit(t[i]) {
        assert t[p + 1..][i - (p + 1)] == t[i];
        return false;
      }
      assert t[p + 1..i + 1] == t[p + 1..i] + [t[i]];
      i := i + 1;
    }
    assert t[p + 1..i] == t[p + 1..];
    return true;
  }

  /** binary: scan back from the terminator to the last '#', then decode 20 digit pairs. */
  method ReadBinary(t: seq<byte>) returns (b: seq<byte>)
    requires HasDigest(t)
    ensures b == Binary(t)
  {
    var i := |t|;
    while i == |t| || t[i] != HASH
      invariant Sep(t) <= i <= |t|
      decreases i
    {
      i := i - 1;
    }
    var pos := i + 1;
    var digits := Digits(t)[..2 * BINARY_SIZE];
    var realcipher := new byte[BINARY_SIZE];
    var k := 0;
    while k < BINARY_SIZE
      invariant 0 <= k <= BINARY_SIZE
      invariant forall j | 0 <= j < k :: realcipher[j] == Binary(t)[j]
    {
      assert t[2 * k + pos] == digits[2 * k] && t[2 * k + 1 + pos] == digits[2 * k + 1];
      realcipher[k] := HexByte(t[2 * k + pos], t[2 * k + 1 + pos]);
      HexDecodeAt(digits, k);
      k := k + 1;
    }
    b := realcipher[..];
  }

  /** salt: memset the buffer to zero, then memcpy the bytes before the last '#'. */
  method SaltOf(t: seq<byte>) returns (s: seq<byte>)
    requires HASH in t && Sep(t) <= SALT_SIZE
    ensures s == SaltBuffer(t)
  {
    var buf := new byte[SALT_SIZE];
    Fill(buf, 0);
    CopyInto(buf, 0, SaltText(t));
    s := buf[..];
    assert s == s[..Sep(t)] + s[Sep(t)..];
    assert s[Sep(t)..] == Zeros(SALT_SIZE - Sep(t));
  }

  // ---------------------------------------------------------------------
  // The salt buffer's terminator.

  /**
   * valid as written lets the salt fill all SALT_SIZE bytes of the buffer,
   * which then holds no NUL for crypt_all's strlen to stop at.
   */
  lemma FullSaltUnterminated(t: seq<byte>)
    requires Valid(t) && IsCString(t) && Sep(t) == SALT_SIZE
    ensures CStrLen(SaltBuffer(t)) == None
  {
    ValidFacts(t);
    assert SaltBuffer(t) == t[..SALT_SIZE];
    assert forall i | 0 <= i < SALT_SIZE :: SaltBuffer(t)[i] == t[i];
  }

  /** Such a record exists: 64 bytes of 'a', '#', 40 zeros. */
  lemma FullSaltAccepted()
    ensures var t := Repeat('a' as byte, SALT_SIZE) + [HASH] + Repeat('0' as byte, 2 * BINARY_SIZE);
      && Valid(t) && IsCString(t) && Sep(t) == SALT_SIZE && CStrLen(SaltBuffer(t)) == None
  {
    var salt := Repeat('a' as byte, SALT_SIZE);
    var digits := Repeat('0' as byte, 2 * BINARY_SIZE);
    ValidParts(salt, digits);
    var t := salt + [HASH] + digits;
    assert forall i | 0 <= i < |t| :: t[i] != NUL;
    FullSaltUnterminated(t);
  }

  /** valid with room left for the salt's terminator: at most SALT_SIZE - 1 salt bytes. */
  predicate ValidCorrected(t: seq<byte>) {
    Valid(t) && Sep(t) < SALT_SIZE
  }

  /**
   * Under the corrected bound the salt buffer of a C-string record is
   * terminated, and strlen of it is the salt's length.
   */
  lemma SaltTerminated(t: seq<byte>)
    requires IsCString(t) && ValidCorrected(t)
    ensures CStrLen(SaltBuffer(t)) == Some(Sep(t))
    ensures SaltBuffer(t)[..Sep(t)] == SaltText(t)
  {
    var s := SaltBuffer(t);
    var p := Sep(t);
    assert s[..p] == SaltText(t);
    assert IsCString(s[..p]);
    assert s[p] == NUL;
    assert Find(s, NUL) == p;
  }

  // ---------------------------------------------------------------------
  // HMAC, section 2 of RFC 2104.

  /** Each byte of `s` XOR `c`. */
  function XorEach(c: byte, s: seq<byte>): (r: seq<byte>)
    ensures |r| == |s| && forall i | 0 <= i < |s| :: r[i] == Xor(c, s[i])
  {
    if s == [] then [] else [Xor(c, s[0])] + XorEach(c, s[1..])
  }

  /** The key HMAC pads: the digest of a key longer than a block, else the key. */
  function HmacKey(suite: Suite, key: seq<byte>): (k: seq<byte>)
    ensures |k| <= PAD_SIZE
  {
    if |key| > PAD_SIZE then Hash(suite, Sha1, key) else key
  }

  /** K padded with zeros to a block, XORed with `c` in every byte. */
  function PadBlock(k: seq<byte>, c: byte): (b: seq<byte>)
    requires |k| <= PAD_SIZE
    ensures |b| == PAD_SIZE
    ensures forall i | 0 <= i < |k| :: b[i] == Xor(c, k[i])
    ensures forall i | |k| <= i < PAD_SIZE :: b[i] == Xor(c, 0)
  {
    XorEach(c, k + Zeros(PAD_SIZE - |k|))
  }

  /** A pad block after the first `i` key bytes are XORed in: `c` XOR those bytes, then `c`. */
  function PadPrefix(k: seq<byte>, c: byte, i: nat): (s: seq<byte>)
    requires i <= |k| <= PAD_SIZE
    ensures |s| == PAD_SIZE
  {
    XorEach(c, k[..i]) + Repeat(c, PAD_SIZE - i)
  }

  /** With no key bytes in, the block is memset's. */
  lemma PadPrefixStart(k: seq<byte>, c: byte)
    requires |k| <= PAD_SIZE
    ensures PadPrefix(k, c, 0) == Repeat(c, PAD_SIZE)
  {
    assert XorEach(c, k[..0]) == [];
  }

  /** XORing key byte `i` into byte `i` of the block takes in one more key byte. */
  lemma PadPrefixStep(k: seq<byte>, c: byte, i: nat)
    requires i < |k| <= PAD_SIZE
    ensures PadPrefix(k, c, i)[i] == c
    ensures PadPrefix(k, c, i)[i := Xor(c, k[i])] == PadPrefix(k, c, i + 1)
  {
    var s := PadPrefix(k, c, i)[i := Xor(c, k[i])];
    assert forall j | 0 <= j < PAD_SIZE :: s[j] == PadPrefix(k, c, i + 1)[j];
  }

  /** Once every key byte is in, the block is the pad block, for either pad byte. */
  lemma PadPrefixDone(k: seq<byte>, c: byte)
    requires |k| <= PAD_SIZE && (c == IPAD || c == OPAD)
    ensures PadPrefix(k, c, |k|) == PadBlock(k, c)
  {
    assert Xor(IPAD, 0) == IPAD && Xor(OPAD, 0) == OPAD;
    var s := PadPrefix(k, c, |k|);
    var z := k + Zeros(PAD_SIZE - |k|);
    assert forall j | 0 <= j < PAD_SIZE :: z[j] == if j < |k| then k[j] else 0;
    assert forall j | 0 <= j < PAD_SIZE :: s[j] == PadBlock(k, c)[j];
  }

  /** HMAC-SHA1(key, text) = H((K XOR opad) + H((K XOR ipad) + text)). */
  function Hmac(suite: Suite, key: seq<byte>, text: seq<byte>): (d: seq<byte>)
    ensures |d| == BINARY_SIZE
  {
    var k := HmacKey(suite, key);
    Hash(suite, Sha1, PadBlock(k, OPAD) + Hash(suite, Sha1, PadBlock(k, IPAD) + text))
  }

  /** A key longer than a block is replaced by its digest (section 2 of RFC 2104). */
  lemma LongKeyHashed(suite: Suite, key: seq<byte>, text: seq<byte>)
    requires |key| > PAD_SIZE
    ensures Hmac(suite, key, text) == Hmac(suite, Hash(suite, Sha1, key), text)
  {
  }

  // ---------------------------------------------------------------------
  // Hash-table masks.

  /** The masks of binary_hash_0..6 and get_hash_0..6. */
  const HASH_MASKS: seq<bv32> := [0xf, 0xff, 0xfff, 0xffff, 0xf_ffff, 0xff_ffff, 0x7ff_ffff]

  /** The first four bytes as a 32-bit word. */
  function WordBits(b: seq<byte>): bv32
    requires |b| >= 4
  {
    Word0(b) as bv32
  }

  /** binary_hash_n: the binary's first word under mask n, never above the mask. */
  function BinaryHash(level: nat, binary: seq<byte>): (h: bv32)
    requires level < |HASH_MASKS| && |binary| >= 4
    ensures h <= HASH_MASKS[level]
  {
    WordBits(binary) & HASH_MASKS[level]
  }

  /** Each mask keeps a subset of the bits the next one keeps. */
  lemma MaskNests(level: nat, w: bv32)
    requires level + 1 < |HASH_MASKS|
    ensures w & HASH_MASKS[level + 1] & HASH_MASKS[level] == w & HASH_MASKS[level]
  {
    assert HASH_MASKS[level + 1] & HASH_MASKS[level] == HASH_MASKS[level];
  }

  /** Any mask keeps a subset of the bits any later one keeps. */
  lemma {:induction false} MasksNest(i: nat, j: nat, w: bv32)
    requires i <= j < |HASH_MASKS|
    ensures w & HASH_MASKS[j] & HASH_MASKS[i] == w & HASH_MASKS[i]
    decreases j - i
  {
    if i < j {
      MasksNest(i + 1, j, w);
      MaskNests(i, w);
      MaskNests(i, w & HASH_MASKS[j]);
    } else {
      assert HASH_MASKS[i] & HASH_MASKS[i] == HASH_MASKS[i];
    }
  }

  /** A smaller table's hash is the larger table's hash masked again: the tables nest. */
  lemma HashLevelsNest(i: nat, j: nat, binary: seq<byte>)
    requires i <= j < |HASH_MASKS| && |binary| >= 4
    ensures BinaryHash(i, binary) == BinaryHash(j, binary) & HASH_MASKS[i]
  {
    MasksNest(i, j, WordBits(binary));
  }

  // ---------------------------------------------------------------------
  // The format's state.

  /** What crypt_all can run into: strlen finding no NUL inside cursalt. */
  datatype Fault = SaltOverrun

  /**
   * The scalar build's static buffers: ipad and opad, cursalt, crypt_key
   * and saved_plain, for one candidate at a time.
   */
  class Format {
    const suite: Suite
    const ipad: array<byte>
    const opad: array<byte>
    const cursalt: array<byte>
    const cryptKey: array<byte>
    var savedPlain: seq<byte>

    ghost predicate Invariant()
      reads this
    {
      && ipad.Length == PAD_SIZE && opad.Length == PAD_SIZE
      && cursalt.Length == SALT_SIZE && cryptKey.Length == BINARY_SIZE
      && ipad != opad && ipad != cursalt && opad != cursalt
      && IsCandidate(savedPlain)
    }

    /** Static storage starts zeroed; init does nothing in the scalar build. */
    constructor (suite: Suite)
      ensures Invariant() && this.suite == suite && savedPlain == []
      ensures fresh(ipad) && fresh(opad) && fresh(cursalt) && fresh(cryptKey)
      ensures ipad[..] == Zeros(PAD_SIZE) && opad[..] == Zeros(PAD_SIZE)
      ensures cursalt[..] == Zeros(SALT_SIZE) && cryptKey[..] == Zeros(BINARY_SIZE)
    {
      this.suite := suite;
      ipad := new byte[PAD_SIZE](_ => 0);
      opad := new byte[PAD_SIZE](_ => 0);
      cursalt := new byte[SALT_SIZE](_ => 0);
      cryptKey := new byte[BINARY_SIZE](_ => 0);
      savedPlain := [];
    }

    /** set_salt: memcpy of the SALT_SIZE-byte salt into cursalt. */
    method SetSalt(salt: seq<byte>)
      requires Invariant() && |salt| == SALT_SIZE
      modifies cursalt
      ensures Invariant() && cursalt[..] == salt
    {
      CopyInto(cursalt, 0, salt);
      assert cursalt[..] == cursalt[0..SALT_SIZE];
    }

    /**
     * set_key: save the plaintext, reset ipad and opad, and XOR the key (its
     * SHA-1 digest when longer than a block) into their first bytes.
     */
    method SetKey(key: seq<byte>)
      requires Invariant() && IsCandidate(key)
      modifies this`savedPlain, ipad, opad
      ensures Invariant() && savedPlain == key
      ensures ipad[..] == PadBlock(HmacKey(suite, key), IPAD)
      ensures opad[..] == PadBlock(HmacKey(suite, key), OPAD)
    {
      savedPlain := key;
      Fill(ipad, IPAD);
      Fill(opad, OPAD);
      var k := if |key| > PAD_SIZE then Hash(suite, Sha1, key) else key;
      XorKey(k);
    }

    /** The XOR loop of set_key: byte `i` of the key into ipad[i] and opad[i]. */
    method XorKey(k: seq<byte>)
      requires Invariant() && |k| <= PAD_SIZE
      requires ipad[..] == Repeat(IPAD, PAD_SIZE) && opad[..] == Repeat(OPAD, PAD_SIZE)
      modifies ipad, opad
      ensures ipad[..] == PadBlock(k, IPAD) && opad[..] == PadBlock(k, OPAD)
    {
      var i := 0;
      PadPrefixStart(k, IPAD);
      PadPrefixStart(k, OPAD);
      while i < |k|
        invariant 0 <= i <= |k|
        invariant ipad[..] == PadPrefix(k, IPAD, i) && opad[..] == PadPrefix(k, OPAD, i)
      {
        PadPrefixStep(k, IPAD, i);
        PadPrefixStep(k, OPAD, i);
        ipad[i] := Xor(ipad[i], k[i]);
        opad[i] := Xor(opad[i], k[i]);
        i := i + 1;
      }
      PadPrefixDone(k, IPAD);
      PadPrefixDone(k, OPAD);
    }

    /** get_key: the saved plaintext. */
    method GetKey() returns (key: seq<byte>)
      requires Invariant()
      ensures key == savedPlain && IsCandidate(key)
    {
      key := savedPlain;
    }

    /**
     * crypt_all: SHA-1 of ipad and the salt up to its NUL into crypt_key,
     * then SHA-1 of opad and crypt_key into crypt_key. Without a NUL in
     * cursalt, strlen has no answer inside the buffer: the model reports
     * SaltOverrun and computes nothing.
     */
    method CryptAll(pcount: int) returns (r: Result<int, Fault>)
      requires Invariant()
      modifies cryptKey
      ensures Invariant()
      ensures match CStrLen(cursalt[..])
        case None => r == Failure(SaltOverrun) && cryptKey[..] == old(cryptKey[..])
        case Some(n) =>
          && r == Success(pcount)
          && cryptKey[..] == Hash(suite, Sha1, opad[..] + Hash(suite, Sha1, ipad[..] + cursalt[..n]))
    {
      var len := CStrLen(cursalt[..]);
      if len.None? {
        return Failure(SaltOverrun);
      }
      var inner := Hash(suite, Sha1, ipad[..] + cursalt[..len.value]);
      CopyInto(cryptKey, 0, inner);
      assert cryptKey[..] == inner;
      var outer := Hash(suite, Sha1, opad[..] + cryptKey[..]);
      CopyInto(cryptKey, 0, outer);
      assert cryptKey[..] == outer;
      r := Success(pcount);
    }

    /** cmp_all: the binary's first 32-bit word against crypt_key's. */
    function CmpAll(binary: seq<byte>, count: int): (r: bool)
      requires Invariant() && |binary| == BINARY_SIZE
      reads this, cryptKey
      ensures binary == cryptKey[..] ==> r
    {
      Word0(binary) == Word0(cryptKey[..])
    }

    /** cmp_one: memcmp of all BINARY_SIZE bytes. */
    function CmpOne(binary: seq<byte>, index: int): (r: bool)
      requires Invariant() && |binary| == BINARY_SIZE
      reads this, cryptKey
      ensures r <==> forall i | 0 <= i < BINARY_SIZE :: binary[i] == cryptKey[i]
      ensures r ==> CmpAll(binary, 1)
    {
      binary == cryptKey[..]
    }

    /** cmp_exact: cmp_one's comparison is already the whole digest. */
    function CmpExact(source: seq<byte>, count: int): (r: bool)
      ensures r
    {
      true
    }

    /** get_hash_n: crypt_key's first word under mask n, as binary_hash_n reads a binary. */
    function GetHash(level: nat): (h: bv32)
      requires Invariant() && level < |HASH_MASKS|
      reads this, cryptKey
      ensures h == BinaryHash(level, cryptKey[..])
    {
      (Word0(cryptKey[..]) as bv32) & HASH_MASKS[level]
    }
  }

  /**
   * What the loader keeps of a record: split it, then take salt and binary
   * from the canonical text. Under the corrected bound the salt buffer is
   * terminated right after the salt.
   */
  method LoadRecord(t: seq<byte>) returns (salt: seq<byte>, binary: seq<byte>)
    requires IsCString(t) && ValidCorrected(t)
    ensures |salt| == SALT_SIZE && CStrLen(salt) == Some(Sep(t)) && salt[..Sep(t)] == SaltText(t)
    ensures binary == Binary(t)
  {
    SplitOfValid(t);
    var c := Split(t);
    salt := SaltOf(c);
    binary := ReadBinary(c);
    SaltTerminated(t);
  }

  /**
   * One candidate against one record, as the cracker drives the format:
   * load the record, set the salt and the key, crypt, and compare. For a
   * record the corrected bound accepts, a match is exactly the stored
   * digest being HMAC-SHA1 of the salt under the key.
   */
  method CheckCandidate(f: Format, t: seq<byte>, key: seq<byte>) returns (matched: bool)
    requires f.Invariant() && IsCString(t) && ValidCorrected(t) && IsCandidate(key)
    modifies f, f.ipad, f.opad, f.cursalt, f.cryptKey
    ensures f.Invariant()
    ensures matched <==> Binary(t) == Hmac(f.suite, key, SaltText(t))
  {
    var salt, binary := LoadRecord(t);
    f.SetSalt(salt);
    f.SetKey(key);
    var n := f.CryptAll(1);
    matched := f.CmpAll(binary, 1) && f.CmpOne(binary, 0) && f.CmpExact(t, 1);
  }
}
